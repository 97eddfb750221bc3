/** `getPagination`: resolves the `limit`, `offset` and `page` parameters. */
module Pagination {
  import opened Wrappers
  import opened JsStrings
  import opened JsNumbers

  /** `{limit, offset, page}` as returned; `None` stands for `null`. */
  datatype PageInfo = PageInfo(limit: Option<JsNum>, offset: JsNum, page: Option<JsNum>)

  /** The string that switches the limit off. */
  const NoLimit: string := "-1"

  /** Missing parameters default to `limit = '25'`, `offset = '0'`,
      `page = '1'`. The sentinel `'-1'` means no limit. Otherwise the limit
      and page are parsed, and the offset is parsed when it is a non-empty
      string; only an empty offset derives it from the page. */
  function GetPagination(limit: Option<string>, offset: Option<string>, page: Option<string>): (r: PageInfo)
    ensures r.limit.None? <==> limit == Some(NoLimit)
    ensures r.limit.None? ==> r.offset == Int(0) && r.page.None?
  {
    var l := limit.GetOr("25");
    var o := offset.GetOr("0");
    var p := page.GetOr("1");
    if l == NoLimit then PageInfo(None, Int(0), None)
    else
      var lim := ParseInt(l);
      var pg := ParseInt(p);
      var off := if o != "" then ParseInt(o) else Mul(Sub(pg, Int(1)), lim);
      PageInfo(Some(lim), off, Some(pg))
  }

  /** `limit = '-1'` yields `{limit: null, offset: 0}` whatever the page and offset. */
  lemma NoLimitSentinel(offset: Option<string>, page: Option<string>)
    ensures GetPagination(Some(NoLimit), offset, page) == PageInfo(None, Int(0), None)
  {
  }

  /** Any limit text other than the exact sentinel goes to `parseInt` as it
      stands; an absent limit is read as `'25'`. So `"-01"`, `" -1"` and
      `"-1px"` are not the sentinel: they parse to -1. */
  lemma LimitIsParseInt(limit: Option<string>, offset: Option<string>, page: Option<string>)
    requires limit != Some(NoLimit)
    ensures GetPagination(limit, offset, page).limit == Some(ParseInt(limit.GetOr("25")))
  {
  }

  /** For the canonical spelling `Show(n)` of an integer, only `-1` is the
      sentinel: every other integer is parsed back as the limit. */
  lemma LimitParsed(n: int, offset: Option<string>, page: Option<string>)
    requires n != -1
    ensures GetPagination(Some(Show(n)), offset, page).limit == Some(Int(n))
  {
    ParseIntShow(n);
    ParseIntMinusOne();
  }

  /** An absent limit is 25. */
  lemma DefaultLimit(offset: Option<string>, page: Option<string>)
    ensures GetPagination(None, offset, page).limit == Some(Int(25))
  {
    ParseIntTwentyFive();
  }

  /** An absent offset defaults to the non-empty string `'0'`, so the offset
      is 0 whatever the page. */
  lemma AbsentOffsetIsZero(limit: Option<string>, page: Option<string>)
    requires limit != Some(NoLimit)
    ensures GetPagination(limit, None, page).offset == Int(0)
  {
    ParseIntZero();
  }

  /** An explicit offset wins over the page. */
  lemma ExplicitOffset(limit: Option<string>, k: int, page: Option<string>)
    requires limit != Some(NoLimit)
    ensures GetPagination(limit, Some(Show(k)), page).offset == Int(k)
  {
    ParseIntShow(k);
  }

  /** Any non-empty offset text is handed to `parseInt` as it stands, readable
      or not (`"abc"`, `" 5"`, `"5px"`, `"007"`), and the page plays no part. */
  lemma NonEmptyOffsetIgnoresPage(limit: Option<string>, o: string, p1: Option<string>, p2: Option<string>)
    requires o != "" && limit != Some(NoLimit)
    ensures GetPagination(limit, Some(o), p1).offset == ParseInt(o)
    ensures GetPagination(limit, Some(o), p1).offset == GetPagination(limit, Some(o), p2).offset
  {
  }

  /** Only an empty offset is derived from the page: `(page - 1) * limit`,
      with the page defaulting to 1. */
  lemma PageDerivedOffset(n: int, p: int)
    requires n != -1
    ensures GetPagination(Some(Show(n)), Some(""), Some(Show(p))).offset == Int((p - 1) * n)
    ensures GetPagination(Some(Show(n)), Some(""), None).offset == Int(0)
  {
    LimitParsed(n, Some(""), Some(Show(p)));
    ParseIntShow(p);
    ParseIntOne();
  }

  /** Nothing is validated: with an empty offset, a page `parseInt` cannot
      read gives a NaN offset; a limit it cannot read gives a NaN limit, and
      then the offset is NaN too unless the offset text is readable. */
  lemma UnreadableInputsGiveNaN(limit: Option<string>, p: string, l: string, offset: Option<string>, page: Option<string>)
    requires limit != Some(NoLimit) && ParseInt(p) == NaN
    ensures GetPagination(limit, Some(""), Some(p)).offset == NaN
    ensures l != NoLimit && ParseInt(l) == NaN ==>
      GetPagination(Some(l), offset, page).limit == Some(NaN)
    ensures l != NoLimit && ParseInt(l) == NaN ==>
      GetPagination(Some(l), Some(""), page).offset == NaN
  {
  }
}
