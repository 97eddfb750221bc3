/** `getSortQuery`: the `&`-separated sort string becomes `[field, direction]`
    pairs for the allowed fields. */
module Sort {
  import opened JsStrings
  import opened QueryTypes
  import opened Format

  /** `const [key] = item.split('-')`: the text before the first `-`, that
      is, the longest hyphen-free prefix of the token. */
  function SortKey(token: string): (k: string)
    ensures StartsWith(token, k) && '-' !in k
    ensures |k| == |token| || token[|k|] == '-'
  {
    SplitFirstIsPrefix(token, '-');
    Split(token, '-')[0]
  }

  /** `item.startsWith('-') ? 'DESC' : 'ASC'`: descending exactly when the
      token's first character is a hyphen. */
  function SortDirection(token: string): (d: Direction)
    ensures d == Desc <==> |token| > 0 && token[0] == '-'
  {
    if StartsWith(token, "-") then Desc else Asc
  }

  predicate Kept(token: string, fields: seq<string>) {
    SortKey(token) in fields
  }

  function SortEntryOf(token: string): SortEntry {
    (FormatKey(SortKey(token)), SortDirection(token))
  }

  /** The `reduce` over the tokens: at most one entry per token, each naming a
      formatted allowed field. */
  function SortTokens(tokens: seq<string>, fields: seq<string>): (r: seq<SortEntry>)
    ensures |r| <= |tokens|
    ensures forall i :: 0 <= i < |r| ==> UnformatKey(r[i].0) in fields
    decreases |tokens|
  {
    if |tokens| == 0 then []
    else
      var prev := SortTokens(tokens[..|tokens| - 1], fields);
      var t := tokens[|tokens| - 1];
      if Kept(t, fields) then
        prev + [SortEntryOf(t)]
      else prev
  }

  /** `getSortQuery`: split on `&`, then keep the allowed tokens. */
  function SortQuery(sort: string, fields: seq<string>): (r: seq<SortEntry>)
    ensures |r| <= Count(sort, '&') + 1
    ensures forall i :: 0 <= i < |r| ==> UnformatKey(r[i].0) in fields
  {
    SortTokens(Split(sort, '&'), fields)
  }

  /** The positions of the kept tokens, in increasing order. */
  function KeptIndices(tokens: seq<string>, fields: seq<string>): (ks: seq<nat>)
    ensures forall i :: 0 <= i < |ks| ==> ks[i] < |tokens| && Kept(tokens[ks[i]], fields)
    ensures forall i, j :: 0 <= i < j < |ks| ==> ks[i] < ks[j]
    ensures forall j :: 0 <= j < |tokens| && Kept(tokens[j], fields) ==> j in ks
    decreases |tokens|
  {
    if |tokens| == 0 then []
    else
      var n := |tokens| - 1;
      var prev := KeptIndices(tokens[..n], fields);
      if Kept(tokens[n], fields) then prev + [n] else prev
  }

  /** The output is exactly the entries of the kept tokens, in token order:
      an order-preserving filter that drops every token whose key is not allowed. */
  lemma {:induction false} SortTokensIsOrderedFilter(tokens: seq<string>, fields: seq<string>)
    ensures |SortTokens(tokens, fields)| == |KeptIndices(tokens, fields)|
    ensures forall i :: 0 <= i < |KeptIndices(tokens, fields)| ==>
      SortTokens(tokens, fields)[i] == SortEntryOf(tokens[KeptIndices(tokens, fields)[i]])
    decreases |tokens|
  {
    if |tokens| > 0 {
      var n := |tokens| - 1;
      SortTokensIsOrderedFilter(tokens[..n], fields);
      var prevK := KeptIndices(tokens[..n], fields);
      var prevR := SortTokens(tokens[..n], fields);
      var ks := KeptIndices(tokens, fields);
      var r := SortTokens(tokens, fields);
      if Kept(tokens[n], fields) {
        assert ks == prevK + [n];
        assert r == prevR + [SortEntryOf(tokens[n])];
      } else {
        assert ks == prevK && r == prevR;
      }
      forall i | 0 <= i < |ks|
        ensures r[i] == SortEntryOf(tokens[ks[i]])
      {
        if i < |prevK| {
          assert tokens[..n][prevK[i]] == tokens[prevK[i]];
        }
      }
    }
  }

  /** A descending token has the empty key. */
  lemma DescendingKeyIsEmpty(token: string)
    ensures SortDirection(token) == Desc ==> SortKey(token) == ""
  {
  }

  /** Unless the empty string is an allowed field, every emitted direction is ASC. */
  lemma {:induction false} AllAscendingWithoutEmptyField(tokens: seq<string>, fields: seq<string>)
    requires "" !in fields
    ensures forall e :: e in SortTokens(tokens, fields) ==> e.1 == Asc
    decreases |tokens|
  {
    if |tokens| > 0 {
      AllAscendingWithoutEmptyField(tokens[..|tokens| - 1], fields);
      DescendingKeyIsEmpty(tokens[|tokens| - 1]);
    }
  }

  /** A sort string with no `&` is a single token. */
  lemma SortQuerySingleToken(sort: string, fields: seq<string>)
    requires '&' !in sort
    ensures SortQuery(sort, fields) == SortTokens([sort], fields)
  {
    SplitNoSeparator(sort, '&');
  }

  /** A sort string `a&b` with no further `&` is the two tokens in order. */
  lemma SortQueryTwoTokens(a: string, b: string, fields: seq<string>)
    requires '&' !in a && '&' !in b
    ensures SortQuery(a + "&" + b, fields) == SortTokens([a, b], fields)
  {
    SplitAfterPiece(a, '&', b);
    SplitNoSeparator(b, '&');
    assert [a] + [b] == [a, b];
  }

  /** A token without `-` is its own key, sorted ascending. */
  lemma PlainToken(t: string)
    requires '-' !in t
    ensures SortKey(t) == t && SortDirection(t) == Asc
  {
    SplitNoSeparator(t, '-');
    assert |t| == 0 || t[0] != '-';
  }

  /** A token `-x` has the empty key. */
  lemma HyphenToken(x: string)
    ensures SortKey("-" + x) == ""
  {
    SplitAfterPiece("", '-', x);
    assert "" + "-" + x == "-" + x;
  }

  /** Of two tokens, only the allowed first one survives. */
  lemma SecondTokenDropped(a: string, b: string, fields: seq<string>)
    requires Kept(a, fields) && !Kept(b, fields)
    ensures SortTokens([a, b], fields) == [SortEntryOf(a)]
  {
    assert [a, b][..1] == [a];
    assert [a][..0] == [];
  }

  /** `name&-age` keeps only `name`: the second token's key is empty. */
  lemma SortExampleLeadingHyphen()
    ensures SortQuery("name&-age", ["name", "age"]) == [("name", Asc)]
  {
    var fields := ["name", "age"];
    assert "name" + "&" + "-age" == "name&-age";
    SortQueryTwoTokens("name", "-age", fields);
    PlainToken("name");
    HyphenToken("age");
    assert "-" + "age" == "-age";
    SecondTokenDropped("name", "-age", fields);
    assert FormatKey("name") == "name";
  }

  /** `name-desc` sorts ascending by `name`: text after the hyphen is dropped. */
  lemma SortExampleTrailingHyphen()
    ensures SortQuery("name-desc", ["name"]) == [("name", Asc)]
  {
    NameDescToken();
    KeptSingleToken("name-desc", ["name"]);
  }

  /** The token `name-desc` has key `name` and is ascending. */
  lemma NameDescToken()
    ensures '&' !in "name-desc" && Kept("name-desc", ["name"])
    ensures SortEntryOf("name-desc") == ("name", Asc)
  {
    NameDescKey();
    NameIsBare();
    NameDescSingle();
  }

  /** `name` has no dot, so its column is `name`. */
  lemma NameIsBare()
    ensures FormatKey("name") == "name"
  {
    assert '.' !in "name";
  }

  /** `name-desc` has no `&`: the sort string is one token. */
  lemma NameDescSingle()
    ensures '&' !in "name-desc"
  {
  }

  /** The key of `name-desc` is the text before its hyphen. */
  lemma NameDescKey()
    ensures SortKey("name-desc") == "name"
  {
    SplitAfterPiece("name", '-', "desc");
    assert "name" + "-" + "desc" == "name-desc";
  }

  /** A query of one allowed token is that token's entry. */
  lemma KeptSingleToken(t: string, fields: seq<string>)
    requires '&' !in t && Kept(t, fields)
    ensures SortQuery(t, fields) == [SortEntryOf(t)]
  {
    SortQuerySingleToken(t, fields);
    assert [t][..0] == [];
  }
}
