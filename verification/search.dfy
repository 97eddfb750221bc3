/** `getSearchQuery`: one case-insensitive partial match per search field. */
module Search {
  import opened QueryTypes
  import opened Format

  /** `{[formatKeyForSequelize(field)]: {[Op.iLike]: `%${search}%`}}`: the
      column recovers the field, and the pattern is the search term, unaltered
      and kept a string, between two `%` wildcards. */
  function SearchClause(search: string, field: string): (c: Clause)
    ensures c.field == FormatKey(field) && UnformatKey(c.field) == field
    ensures c.leaf.Cmp? && c.leaf.key == OpSym(ILike) && c.leaf.value.Str?
    ensures var t := c.leaf.value.text;
      |t| == |search| + 2 && t[0] == '%' && t[|t| - 1] == '%' && t[1..|t| - 1] == search
  {
    Clause(FormatKey(field), Cmp(OpSym(ILike), Str("%" + search + "%")))
  }

  /** The `reduce` over `searchFields`: exactly one clause per field, in
      field order. */
  function SearchQuery(search: string, fields: seq<string>): (r: seq<Clause>)
    ensures |r| == |fields|
    ensures forall i :: 0 <= i < |fields| ==> r[i] == SearchClause(search, fields[i])
    decreases |fields|
  {
    if |fields| == 0 then []
    else
      var init := fields[..|fields| - 1];
      var prev := SearchQuery(search, init);
      assert forall i :: 0 <= i < |init| ==> fields[i] == init[i];
      prev + [SearchClause(search, fields[|fields| - 1])]
  }

  /** Every clause is an `iLike` match of the wrapped term, and distinct search
      fields give clauses on distinct columns. */
  lemma SearchClausesShape(search: string, fields: seq<string>)
    ensures forall c :: c in SearchQuery(search, fields) ==>
      c.leaf == Cmp(OpSym(ILike), Str("%" + search + "%")) && UnformatKey(c.field) in fields
    ensures (forall i, j :: 0 <= i < j < |fields| ==> fields[i] != fields[j]) ==>
      (forall i, j :: 0 <= i < j < |fields| ==>
        SearchQuery(search, fields)[i].field != SearchQuery(search, fields)[j].field)
  {
    var r := SearchQuery(search, fields);
    forall c | c in r
      ensures UnformatKey(c.field) in fields
    {
      var i :| 0 <= i < |r| && r[i] == c;
    }
    forall i, j | 0 <= i < j < |fields| && fields[i] != fields[j]
      ensures r[i].field != r[j].field
    {
      FormatKeyInjective(fields[i], fields[j]);
    }
  }
}
