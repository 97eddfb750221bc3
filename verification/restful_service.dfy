/** `RESTFulService.getParams`: the four stages composed into one Sequelize
    query object `{where, order, limit?, offset}`. */
module RestfulService {
  import opened Wrappers
  import opened JsStrings
  import opened JsNumbers
  import opened QueryTypes
  import opened Format
  import opened Pagination
  import opened Search
  import opened Sort
  import opened Filter

  /** The returned `queryParams`; `limit` is `None` when the key is not set. */
  datatype Query = Query(where: Where, order: seq<SortEntry>, limit: Option<int>, offset: JsNum)

  /** The keys destructured out of the DTO before the filter stage. */
  const Reserved: set<string> := {"search", "sort", "page", "limit", "offset"}

  /** The value under `key`, if the object has that property: absent exactly
      when no entry has that name. */
  function Lookup(ps: Params, key: string): (r: Option<string>)
    ensures r.None? <==> forall i :: 0 <= i < |ps| ==> ps[i].0 != key
    decreases |ps|
  {
    if |ps| == 0 then None
    else if ps[0].0 == key then Some(ps[0].1)
    else Lookup(ps[1..], key)
  }

  /** A present value is the value of the first entry with that name. */
  lemma {:induction false} LookupFirst(ps: Params, key: string)
    ensures Lookup(ps, key).Some? ==>
      exists i :: 0 <= i < |ps| && ps[i] == (key, Lookup(ps, key).value) && (forall j :: 0 <= j < i ==> ps[j].0 != key)
    decreases |ps|
  {
    if |ps| > 0 && ps[0].0 != key && Lookup(ps, key).Some? {
      LookupFirst(ps[1..], key);
      var i :| 0 <= i < |ps[1..]| && ps[1..][i] == (key, Lookup(ps, key).value) && (forall j :: 0 <= j < i ==> ps[1..][j].0 != key);
      assert ps[i + 1] == ps[1..][i];
    }
  }

  /** `...restDto`: the entries left after the reserved keys, in order. */
  function RestOf(ps: Params): (r: Params)
    ensures forall e :: e in r ==> e in ps && e.0 !in Reserved
    ensures forall i :: 0 <= i < |ps| && ps[i].0 !in Reserved ==> ps[i] in r
    decreases |ps|
  {
    if |ps| == 0 then []
    else (if ps[0].0 in Reserved then [] else [ps[0]]) + RestOf(ps[1..])
  }

  /** JavaScript truthiness of an optional string: present and non-empty. */
  predicate Present(v: Option<string>) {
    v.Some? && v.value != ""
  }

  /** `getParams`. The limit and offset are set only for a truthy limit; a
      non-empty search writes its clause list under `Op.and`; a non-empty sort
      string replaces the empty order; the filter result is spread last, so
      its keys win. */
  function GetParams(dto: Params, cfg: Config): (q: Query)
    ensures WellFormed(q.where)
    ensures q.limit.Some? ==> q.limit.value != 0
    ensures q.limit.None? ==> q.offset == Int(0)
  {
    var pag := GetPagination(Lookup(dto, "limit"), Lookup(dto, "offset"), Lookup(dto, "page"));
    var limitSet := pag.limit.Some? && Truthy(pag.limit.value);
    var search := Lookup(dto, "search");
    var sort := Lookup(dto, "sort");
    var rest := RestOf(dto);
    var w0: Where := map[];
    var w1 := if Present(search) then w0[AndKey := Group(SearchQuery(search.value, cfg.searchFields))] else w0;
    var w2 := if |rest| > 0 then w1 + FilterQuery(rest, cfg.filterFields) else w1;
    Query(
      w2,
      if Present(sort) then SortQuery(sort.value, cfg.sortFields) else [],
      if limitSet then Some(pag.limit.value.i) else None,
      if limitSet then pag.offset else Int(0))
  }

  // ----- Pagination through getParams -----

  /** `limit = '-1'` sets no limit and keeps the offset at 0, whatever the
      page and offset. */
  lemma GetParamsNoLimit(dto: Params, cfg: Config)
    requires Lookup(dto, "limit") == Some(NoLimit)
    ensures GetParams(dto, cfg).limit == None && GetParams(dto, cfg).offset == Int(0)
  {
  }

  /** Any limit text but the exact sentinel is handed to `parseInt`, and the
      limit is sent exactly when the result is truthy. A non-canonical
      spelling of -1 (`"-01"`, `" -1"`, `"-1px"`) is therefore sent as -1, and
      any falsy spelling (`"0"`, `"00"`, `" 0"`, `"0px"`, `"abc"`) sends none. */
  lemma GetParamsLimitText(dto: Params, cfg: Config)
    requires Lookup(dto, "limit").Some? && Lookup(dto, "limit").value != NoLimit
    ensures var v := ParseInt(Lookup(dto, "limit").value);
      GetParams(dto, cfg).limit == (if Truthy(v) then Some(v.i) else None)
  {
    LimitIsParseInt(Lookup(dto, "limit"), Lookup(dto, "offset"), Lookup(dto, "page"));
  }

  /** For the canonical spelling `Show(n)`, the limit is set exactly when n
      is neither 0 nor the sentinel -1. */
  lemma GetParamsLimit(dto: Params, cfg: Config, n: int)
    requires Lookup(dto, "limit") == Some(Show(n))
    ensures GetParams(dto, cfg).limit == (if n == 0 || n == -1 then None else Some(n))
  {
    if n != -1 {
      LimitParsed(n, Lookup(dto, "offset"), Lookup(dto, "page"));
    } else {
      assert Show(-1) == NoLimit;
    }
  }

  /** A limit `parseInt` cannot read sets no limit either. */
  lemma GetParamsUnreadableLimit(dto: Params, cfg: Config)
    requires Lookup(dto, "limit").Some? && Lookup(dto, "limit").value != NoLimit
    requires ParseInt(Lookup(dto, "limit").value) == NaN
    ensures GetParams(dto, cfg).limit == None && GetParams(dto, cfg).offset == Int(0)
  {
  }

  /** With neither limit nor offset given, the limit is 25 and the offset 0,
      whatever the page. */
  lemma GetParamsDefaultPagination(dto: Params, cfg: Config)
    requires Lookup(dto, "limit") == None && Lookup(dto, "offset") == None
    ensures GetParams(dto, cfg).limit == Some(25) && GetParams(dto, cfg).offset == Int(0)
  {
    DefaultLimit(None, Lookup(dto, "page"));
    AbsentOffsetIsZero(None, Lookup(dto, "page"));
  }

  /** An explicit offset is used as given once a limit is set. */
  lemma GetParamsExplicitOffset(dto: Params, cfg: Config, n: int, k: int)
    requires Lookup(dto, "limit") == Some(Show(n)) && n != 0 && n != -1
    requires Lookup(dto, "offset") == Some(Show(k))
    ensures GetParams(dto, cfg).limit == Some(n) && GetParams(dto, cfg).offset == Int(k)
  {
    GetParamsLimit(dto, cfg, n);
    ParseIntShow(n);
    ExplicitOffset(Some(Show(n)), k, Lookup(dto, "page"));
  }

  /** Only an empty offset is derived from the page: `(page - 1) * limit`. */
  lemma GetParamsPageOffset(dto: Params, cfg: Config, n: int, p: int)
    requires Lookup(dto, "limit") == Some(Show(n)) && n != 0 && n != -1
    requires Lookup(dto, "offset") == Some("") && Lookup(dto, "page") == Some(Show(p))
    ensures GetParams(dto, cfg).limit == Some(n) && GetParams(dto, cfg).offset == Int((p - 1) * n)
  {
    GetParamsLimit(dto, cfg, n);
    PageDerivedOffset(n, p);
  }

  // ----- The where object -----

  /** Some remaining entry is eligible and routed to the group under `gk`. */
  predicate Routed(dto: Params, cfg: Config, gk: WKey) {
    var rest := RestOf(dto);
    exists i :: 0 <= i < |rest| && Eligible(rest[i].0, cfg.filterFields) && RoutesTo(rest[i].1, gk)
  }

  /** The filter stage's contribution to `where`, spread after the search. */
  lemma WhereIsSearchThenFilter(dto: Params, cfg: Config)
    ensures var rest := RestOf(dto);
      GetParams(dto, cfg).where ==
        (if Present(Lookup(dto, "search"))
         then map[AndKey := Group(SearchQuery(Lookup(dto, "search").value, cfg.searchFields))]
         else map[]) + FilterQuery(rest, cfg.filterFields)
  {
    var rest := RestOf(dto);
    if |rest| == 0 {
      var w1: Where := if Present(Lookup(dto, "search"))
        then map[AndKey := Group(SearchQuery(Lookup(dto, "search").value, cfg.searchFields))]
        else map[];
      assert FilterQuery(rest, cfg.filterFields) == map[];
      assert w1 + map[] == w1;
    }
  }

  /** When the filter stage builds an `Op.and` list, it replaces the search
      list entirely: the search clauses are lost. */
  lemma FilterAndReplacesSearch(dto: Params, cfg: Config)
    requires Routed(dto, cfg, AndKey)
    ensures AndKey in GetParams(dto, cfg).where
    ensures GetParams(dto, cfg).where[AndKey] == Group(LogicalClauses(RestOf(dto), cfg.filterFields, AndKey))
  {
    var rest := RestOf(dto);
    var fq := FilterQuery(rest, cfg.filterFields);
    WhereIsSearchThenFilter(dto, cfg);
    LogicalClausesNonEmpty(rest, cfg.filterFields, AndKey);
    GroupAccumulates(map[], rest, cfg.filterFields, AndKey);
    assert AndKey in fq && fq[AndKey].Group?;
  }

  /** Without a filter `Op.and` list, a non-empty search keeps its list: one
      `iLike` clause per search field, in field order. */
  lemma SearchSurvives(dto: Params, cfg: Config)
    requires Present(Lookup(dto, "search")) && !Routed(dto, cfg, AndKey)
    ensures AndKey in GetParams(dto, cfg).where
    ensures GetParams(dto, cfg).where[AndKey] == Group(SearchQuery(Lookup(dto, "search").value, cfg.searchFields))
  {
    var rest := RestOf(dto);
    WhereIsSearchThenFilter(dto, cfg);
    LogicalClausesNonEmpty(rest, cfg.filterFields, AndKey);
    GroupAccumulates(map[], rest, cfg.filterFields, AndKey);
  }

  /** `Op.and` is in `where` exactly for a non-empty search or a routed
      `%`-split filter. */
  lemma {:induction false} WhereAndKey(dto: Params, cfg: Config)
    ensures AndKey in GetParams(dto, cfg).where <==> Present(Lookup(dto, "search")) || Routed(dto, cfg, AndKey)
  {
    var rest := RestOf(dto);
    WhereIsSearchThenFilter(dto, cfg);
    LogicalClausesNonEmpty(rest, cfg.filterFields, AndKey);
    GroupAccumulates(map[], rest, cfg.filterFields, AndKey);
  }

  /** `Op.or` is in `where` exactly for a routed `|`-split filter; the search
      never writes it. */
  lemma {:induction false} WhereOrKey(dto: Params, cfg: Config)
    ensures OrKey in GetParams(dto, cfg).where <==> Routed(dto, cfg, OrKey)
  {
    var rest := RestOf(dto);
    WhereIsSearchThenFilter(dto, cfg);
    LogicalClausesNonEmpty(rest, cfg.filterFields, OrKey);
    GroupAccumulates(map[], rest, cfg.filterFields, OrKey);
  }

  /** A field key is in `where` exactly when some comparison filter names
      it, and it holds that filter's leaf. */
  lemma {:induction false} WhereFieldKeys(dto: Params, cfg: Config)
    requires DistinctKeys(dto)
    ensures forall k :: Field(k) in GetParams(dto, cfg).where <==>
      exists i :: 0 <= i < |RestOf(dto)| && IsComparisonEntry(RestOf(dto)[i], cfg.filterFields) && FieldKeyOf(RestOf(dto)[i].0) == k
    ensures forall i :: 0 <= i < |RestOf(dto)| && IsComparisonEntry(RestOf(dto)[i], cfg.filterFields) ==>
      GetParams(dto, cfg).where[Field(FieldKeyOf(RestOf(dto)[i].0))] == Single(ComparisonLeaf(RestOf(dto)[i].1))
  {
    RestOfDistinct(dto);
    WhereIsSearchThenFilter(dto, cfg);
    FieldEntries(map[], RestOf(dto), cfg.filterFields);
  }

  /** Exactly which keys `where` holds: `Op.and` for a non-empty search or an
      `%`-split filter, `Op.or` for a `|`-split filter, and a field key for
      each comparison filter, which holds that filter's leaf. */
  lemma {:induction false} WhereKeys(dto: Params, cfg: Config)
    requires DistinctKeys(dto)
    ensures AndKey in GetParams(dto, cfg).where <==> Present(Lookup(dto, "search")) || Routed(dto, cfg, AndKey)
    ensures OrKey in GetParams(dto, cfg).where <==> Routed(dto, cfg, OrKey)
    ensures forall k :: Field(k) in GetParams(dto, cfg).where <==>
      exists i :: 0 <= i < |RestOf(dto)| && IsComparisonEntry(RestOf(dto)[i], cfg.filterFields) && FieldKeyOf(RestOf(dto)[i].0) == k
    ensures forall i :: 0 <= i < |RestOf(dto)| && IsComparisonEntry(RestOf(dto)[i], cfg.filterFields) ==>
      GetParams(dto, cfg).where[Field(FieldKeyOf(RestOf(dto)[i].0))] == Single(ComparisonLeaf(RestOf(dto)[i].1))
  {
    WhereAndKey(dto, cfg);
    WhereOrKey(dto, cfg);
    WhereFieldKeys(dto, cfg);
  }

  /** The remaining entries of an object still have distinct keys. */
  lemma {:induction false} RestOfDistinct(ps: Params)
    requires DistinctKeys(ps)
    ensures DistinctKeys(RestOf(ps))
    decreases |ps|
  {
    if |ps| > 0 {
      assert DistinctKeys(ps[1..]) by {
        forall i, j | 0 <= i < j < |ps[1..]|
          ensures ps[1..][i].0 != ps[1..][j].0
        {
          assert ps[1..][i] == ps[i + 1] && ps[1..][j] == ps[j + 1];
        }
      }
      RestOfDistinct(ps[1..]);
      var tail := RestOf(ps[1..]);
      forall e | e in tail
        ensures e.0 != ps[0].0
      {
        var j :| 0 <= j < |ps[1..]| && ps[1..][j] == e;
        assert ps[j + 1] == e;
      }
    }
  }

  // ----- Order -----

  /** Without a non-empty sort string the order stays `[]`; otherwise it is
      the sort query of that string, so every entry names an allowed sort
      field, there are no more entries than tokens, and all are ascending
      unless the empty name is allowed. */
  lemma OrderSpec(dto: Params, cfg: Config)
    ensures !Present(Lookup(dto, "sort")) ==> GetParams(dto, cfg).order == []
    ensures Present(Lookup(dto, "sort")) ==>
      GetParams(dto, cfg).order == SortQuery(Lookup(dto, "sort").value, cfg.sortFields)
    ensures Present(Lookup(dto, "sort")) ==>
      |GetParams(dto, cfg).order| <= |Split(Lookup(dto, "sort").value, '&')|
    ensures forall e :: e in GetParams(dto, cfg).order ==> UnformatKey(e.0) in cfg.sortFields
    ensures "" !in cfg.sortFields ==> forall e :: e in GetParams(dto, cfg).order ==> e.1 == Asc
  {
    var order := GetParams(dto, cfg).order;
    if Present(Lookup(dto, "sort")) {
      var toks := Split(Lookup(dto, "sort").value, '&');
      if "" !in cfg.sortFields {
        AllAscendingWithoutEmptyField(toks, cfg.sortFields);
      }
    }
  }

  // ----- Keys that take no part -----

  /** Lookup is not affected by an entry under a different key. */
  lemma {:induction false} LookupSkip(a: Params, e: (string, string), b: Params, key: string)
    requires e.0 != key
    ensures Lookup(a + [e] + b, key) == Lookup(a + b, key)
    decreases |a|
  {
    if |a| > 0 {
      assert (a + [e] + b)[1..] == a[1..] + [e] + b;
      assert (a + b)[1..] == a[1..] + b;
      LookupSkip(a[1..], e, b, key);
    } else {
      assert a + [e] + b == [e] + b && a + b == b;
      assert ([e] + b)[1..] == b;
    }
  }

  /** On one entry, `...restDto` keeps it exactly when its name is not
      reserved. */
  lemma RestOfSingle(e: (string, string))
    ensures RestOf([e]) == (if e.0 in Reserved then [] else [e])
  {
    assert [e][1..] == [];
  }

  /** `RestOf` works entry by entry and keeps their order: with `RestOfSingle`
      this makes it the order-preserving filter of the non-reserved entries. */
  lemma {:induction false} RestOfAppend(a: Params, b: Params)
    ensures RestOf(a + b) == RestOf(a) + RestOf(b)
    decreases |a|
  {
    if |a| > 0 {
      assert (a + b)[1..] == a[1..] + b;
      RestOfAppend(a[1..], b);
    } else {
      assert a + b == b;
    }
  }

  /** A parameter that is neither reserved nor an eligible filter key changes
      nothing in the compiled query. */
  lemma IgnoredParameter(a: Params, e: (string, string), b: Params, cfg: Config)
    requires e.0 !in Reserved && !Eligible(e.0, cfg.filterFields)
    ensures GetParams(a + [e] + b, cfg) == GetParams(a + b, cfg)
  {
    var dto := a + [e] + b;
    var dto' := a + b;
    forall key | key in Reserved
      ensures Lookup(dto, key) == Lookup(dto', key)
    {
      LookupSkip(a, e, b, key);
    }
    assert Lookup(dto, "limit") == Lookup(dto', "limit");
    assert Lookup(dto, "offset") == Lookup(dto', "offset");
    assert Lookup(dto, "page") == Lookup(dto', "page");
    assert Lookup(dto, "search") == Lookup(dto', "search");
    assert Lookup(dto, "sort") == Lookup(dto', "sort");
    RestOfAppend(a + [e], b);
    RestOfAppend(a, [e]);
    RestOfAppend(a, b);
    RestOfSingle(e);
    var ra := RestOf(a);
    var rb := RestOf(b);
    FilterFromSkip(map[], ra, e, rb, cfg.filterFields);
    assert RestOf(dto) == ra + [e] + rb;
    assert RestOf(dto') == ra + rb;
    WhereIsSearchThenFilter(dto, cfg);
    WhereIsSearchThenFilter(dto', cfg);
  }
}
