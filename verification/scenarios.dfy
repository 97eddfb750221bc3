/** Concrete inputs from the service's documented behaviour, compiled as the
    code is written. */
module Scenarios {
  import opened Wrappers
  import opened JsStrings
  import opened JsNumbers
  import opened QueryTypes
  import opened Format
  import opened Pagination
  import opened Search
  import opened Filter
  import opened RestfulService

  /** `>=` followed by a value without `=`, `%` or `|` gives an operator object
      under `"undefined"` holding the coerced value. */
  lemma GteLeaf(raw: string, v: string)
    requires raw == ">=" + v
    requires '=' !in v && '%' !in v && '|' !in v
    ensures ComparisonLeaf(raw) == Cmp(UndefinedName, Coerce(v))
  {
    assert raw == ">" + "=" + v;
    IncludesCharIff(raw, '%');
    IncludesCharIff(raw, '|');
    assert '%' !in raw && '|' !in raw;
    assert StartsWith(raw, ">=");
    ComparisonBranchSymbols(raw);
    ComparisonLeafSpec(raw);
    SplitAfterPiece(">", '=', v);
    SplitNoSeparator(v, '=');
    assert Split(raw, '=') == [">", v];
  }

  /** `f_balance=>=1000` compiles to `{balance: {undefined: 1000}}`, not to a
      `gte` comparison. */
  lemma GteExample()
    ensures ComparisonLeaf(">=1000") == Cmp(UndefinedName, Num("1000"))
  {
    assert ">=1000" == ">=" + "1000";
    GteLeaf(">=1000", "1000");
    CoerceDigitStart("1000");
  }

  /** `f_balance=>1000` compiles to equality on the string `>1000`. */
  lemma GtExample()
    ensures ComparisonLeaf(">1000") == Eq(Str(">1000"))
  {
    NoEqualsSignMeansEquality(">1000");
    CoerceExamples();
  }

  /** `f_status=active` is string equality and `f_balance=1000` numeric equality. */
  lemma EqualityExamples()
    ensures ComparisonLeaf("active") == Eq(Str("active"))
    ensures ComparisonLeaf("1000") == Eq(Num("1000"))
  {
    NoEqualsSignMeansEquality("active");
    NoEqualsSignMeansEquality("1000");
    CoerceExamples();
    CoerceDigitStart("1000");
  }

  /** A value `x|y` on an allowed field adds two equality clauses to the
      `Op.or` list. */
  lemma OrSplitLeaves(key: string, x: string, y: string, fields: seq<string>)
    requires Eligible(key, fields)
    requires '%' !in x + "|" + y && '|' !in x && '|' !in y
    ensures LogicalPart((key, x + "|" + y), fields, OrKey) ==
      [Clause(FieldKeyOf(key), Eq(Coerce(x))), Clause(FieldKeyOf(key), Eq(Coerce(y)))]
  {
    var raw := x + "|" + y;
    IncludesCharIff(raw, '%');
    IncludesCharIff(raw, '|');
    assert raw[|x|] == '|';
    SplitAfterPiece(x, '|', y);
    SplitNoSeparator(y, '|');
    assert Split(raw, '|') == [x, y];
  }

  /** `f_role=admin|editor` with `role` allowed appends `{role: 'admin'}` and
      `{role: 'editor'}` to the `Op.or` list. */
  lemma OrExample()
    ensures LogicalPart(("f_role", "admin|editor"), ["role"], OrKey) ==
      [Clause("role", Eq(Str("admin"))), Clause("role", Eq(Str("editor")))]
  {
    RoleKey();
    RoleValues();
    assert "admin|editor" == "admin" + "|" + "editor";
    OrSplitLeaves("f_role", "admin", "editor", ["role"]);
  }

  /** `f_role` is eligible when `role` is allowed, and writes under `role`. */
  lemma RoleKey()
    ensures Eligible("f_role", ["role"]) && FieldKeyOf("f_role") == "role"
  {
    assert "f_role"[2..] == "role" && StartsWith("f_role", FilterPrefix);
    assert '.' !in "role";
  }

  /** `admin` and `editor` stay strings. */
  lemma RoleValues()
    ensures Coerce("admin") == Str("admin") && Coerce("editor") == Str("editor")
  {
    CoerceNonNumericStart("admin");
    CoerceNonNumericStart("editor");
  }

  /** `limit=10&page=3` without an offset keeps offset 0, because the offset
      default `'0'` is truthy; only `offset=` (empty) gives offset 20. */
  lemma PageExample()
    ensures GetPagination(Some("10"), None, Some("3")).offset == Int(0)
    ensures GetPagination(Some("10"), Some(""), Some("3")).offset == Int(20)
  {
    assert "10" == Show(10) && "3" == Show(3);
    PageDerivedOffset(10, 3);
    AbsentOffsetIsZero(Some("10"), Some("3"));
  }

  /** A non-empty offset is parsed whatever the page: `offset=abc` gives a
      NaN offset and `offset=5px` gives 5. */
  lemma OffsetTextExamples()
    ensures GetPagination(Some("10"), Some("abc"), Some("3")).offset == NaN
    ensures GetPagination(Some("10"), Some("5px"), Some("3")).offset == Int(5)
  {
    NonEmptyOffsetIgnoresPage(Some("10"), "abc", Some("3"), None);
    NonEmptyOffsetIgnoresPage(Some("10"), "5px", Some("3"), None);
    assert ParseInt("abc") == NaN by {
      assert !IsJsSpace('a') && TrimStart("abc") == "abc";
      assert AfterSign("abc") == "abc";
    }
    assert ParseInt("5px") == Int(5) by {
      assert "5px" == Show(5) + "px";
      ParseIntShowThen(5, "px");
    }
  }

  /** Only the exact text `-1` switches the limit off: `limit=-01` sends
      `limit: -1` to the database, and `limit=00`, falsy once parsed, sends
      no limit. */
  lemma NonCanonicalLimitExamples(cfg: Config)
    ensures GetParams([("limit", "-01")], cfg).limit == Some(-1)
    ensures GetParams([("limit", "00")], cfg).limit == None
  {
    assert "-01" != NoLimit && ParseInt("-01") == Int(-1) by {
      assert !IsJsSpace('-') && TrimStart("-01") == "-01";
      assert AfterSign("-01") == "01";
      assert LeadingDigits("01") == "01";
      assert DigitsValue("01") == 1;
      ParseIntAfterMinus("-01", "01");
    }
    assert "00" != NoLimit && ParseInt("00") == Int(0) by {
      assert !IsJsSpace('0') && TrimStart("00") == "00";
      assert AfterSign("00") == "00";
      assert LeadingDigits("00") == "00";
      assert DigitsValue("00") == 0;
      ParseIntAfterNoMinus("00", "00");
    }
    GetParamsLimitText([("limit", "-01")], cfg);
    GetParamsLimitText([("limit", "00")], cfg);
  }

  /** `search=bob` over `name` and `user.email` builds two `iLike` clauses,
      the dotted path wrapped in `$`. */
  lemma SearchExample()
    ensures SearchQuery("bob", ["name", "user.email"]) == [
      Clause("name", Cmp(OpSym(ILike), Str("%bob%"))),
      Clause("$user.email$", Cmp(OpSym(ILike), Str("%bob%")))]
  {
    SearchTwoFields("bob", "name", "user.email");
    SearchClauseExamples();
  }

  /** A search over two fields is their two clauses, in field order. */
  lemma SearchTwoFields(search: string, f1: string, f2: string)
    ensures SearchQuery(search, [f1, f2]) == [SearchClause(search, f1), SearchClause(search, f2)]
  {
  }

  /** The clause for a plain and for a dotted field. */
  lemma SearchClauseExamples()
    ensures SearchClause("bob", "name") == Clause("name", Cmp(OpSym(ILike), Str("%bob%")))
    ensures SearchClause("bob", "user.email") == Clause("$user.email$", Cmp(OpSym(ILike), Str("%bob%")))
  {
    assert '.' !in "name";
    assert '.' in "user.email" by {
      assert "user.email"[4] == '.';
    }
    assert FormatKey("user.email") == "$" + "user.email" + "$";
    assert "$" + "user.email" + "$" == "$user.email$";
    assert "%" + "bob" + "%" == "%bob%";
  }
}
