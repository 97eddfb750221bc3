# RESTFulService query compiler, modelled in Dafny

This project models `RESTFulService` from `src/core/module/core.module.ts`.
The class turns the query-string parameters of an HTTP list request (a DTO of
string values) into a Sequelize `findAll` options object:

- `where` holds the search clauses, the `f_`-prefixed filters, and the
  `Op.and` / `Op.or` groups;
- `order` is a list of `[column, 'ASC' | 'DESC']` pairs;
- `limit` and `offset` do the pagination.

Each subclass supplies a configuration object. It lists which fields may be
searched, sorted and filtered.

The model is a set of pure functions over immutable values:

| module | models |
|---|---|
| `Wrappers` | `Option`, for absent parameters |
| `JsStrings` | the JavaScript string built-ins the class relies on: `startsWith`, `includes`, `split` on a one-character separator (with `Join` as its inverse), and the leading-whitespace skip of `parseInt`/`parseFloat` |
| `JsNumbers` | `parseInt(s, 10)` over unbounded integers, with `NaN`; the `parseFloat`-based test inside `isNumeric`; truthiness; `Show`, the decimal rendering used to state round trips |
| `QueryTypes` | the Sequelize options object: a `where` map keyed by a field name, `Op.and` or `Op.or`; comparison leaves; sort entries; the configuration |
| `Format` | `formatKeyForSequelize` (`FormatKey`, with its inverse `UnformatKey`) and `formatValue` (`Coerce`) |
| `Pagination` | `getPagination` |
| `Search` | `getSearchQuery` |
| `Sort` | `getSortQuery` |
| `Filter` | `getFilterQuery` |
| `RestfulService` | `getParams`, with the DTO modelled as an ordered list of key/value pairs |
| `Scenarios` | worked examples that pin the behaviour to concrete requests |

A note on how the model follows the code where it departs from its own
comments and documented intent:

- **Two-character comparison operators.** In `getFilterQuery`, the operator
  symbol found in the value is destructured as a string. For `>=`, `<=` and
  `!=` this makes `opKey` the symbol's first character, and `sOp[opKey]` is
  then `undefined`. The value is `rawValue.split(opValue)[1]`, where
  `opValue` is `=`: the text between the first and the second `=` of the
  whole value. So `>=1=2` compares with `1`, and `a=b>=c` with `b>`.
  `f_balance=>=1000` yields a clause keyed by the property name
  `"undefined"` (`OpKey.UndefinedName`), not `Op.gte`.
- **One-character operators.** For `>` and `<`, the second character is
  missing, so the code falls back to equality on the whole raw string.
  `f_balance=>1000` therefore compares for equality with `">1000"`.
- **Default offset.** `getPagination` defaults `offset` to the string `'0'`,
  which is truthy. The page-derived offset `(page - 1) * limit` is used only
  when `offset` is given as the empty string. A request with `limit=10&page=3`
  gets offset 0, not 20.
- **Empty search fields.** A search with no configured search fields still
  writes an empty `Op.and` list.
- **Spellings of the limit sentinel.** Only the exact text `-1` switches the
  limit off; it is compared before parsing. `limit=-01`, `limit= -1` and
  `limit=-1px` parse to -1, which is truthy, so the query is sent with
  `limit: -1`. Any text that parses to 0 or NaN (`00`, `0px`, `abc`) sends no
  limit and offset 0.
- **`isNumeric`.** The `Number.isNaN(value)` half of the test is always false
  for a string, so the test reduces to `parseFloat` finding a numeric prefix.
  `"12abc"` counts as numeric.

## Model

| member | source | states |
|---|---|---|
| JsStrings.IncludesCharIff | src/core/module/core.module.ts:144 | `includes` of a one-character string is plain membership of that character |
| JsStrings.Split | src/core/module/core.module.ts:150 | `split` on a character gives one more piece than there are separators, and no piece contains the separator |
| JsStrings.JoinSplit | src/core/module/core.module.ts:150 | joining the pieces of a split with the separator gives back the original string, so no text is lost |
| JsStrings.SplitJoin | src/core/module/core.module.ts:150 | splitting a join of separator-free pieces gives back exactly those pieces |
| JsStrings.SplitFirstIsPrefix | src/core/module/core.module.ts:98 | the first piece of a split is the longest separator-free prefix: it ends at the end of the string or at the first separator |
| JsStrings.TrimStartSpec | src/core/module/core.module.ts:176 | the whitespace skip before number parsing drops only whitespace, keeps a suffix, and leaves a string that starts with a non-space |
| JsNumbers.ParseInt | src/core/module/core.module.ts:58-64 | `parseInt(s, 10)` is NaN exactly when, after leading whitespace and one optional sign, no digit follows; a negative result needs a leading minus sign |
| JsNumbers.IsNumeric | src/core/module/core.module.ts:174-177 | every string that `parseInt` reads as an integer passes the test |
| JsNumbers.ParseIntShowThen | src/core/module/core.module.ts:58 | `parseInt` reads back any integer's decimal text, followed by anything that does not start with a digit |
| JsNumbers.ParseIntShow | src/core/module/core.module.ts:58-64 | `parseInt(String(n), 10) == n` for every integer n |
| JsNumbers.ParseIntNegative | src/core/module/core.module.ts:58 | a minus sign followed by digits parses to the negated digit value; trailing non-digits are ignored |
| JsNumbers.ParseIntDigit | src/core/module/core.module.ts:56-64 | a single digit parses to its value |
| JsNumbers.ParseIntZero | src/core/module/core.module.ts:56 | the offset default `'0'` parses to 0 |
| JsNumbers.ParseIntOne | src/core/module/core.module.ts:56 | the page default `'1'` parses to 1 |
| JsNumbers.ParseIntTwentyFive | src/core/module/core.module.ts:56 | the limit default `'25'` parses to 25 |
| JsNumbers.NumericWithoutInteger | src/core/module/core.module.ts:174-177 | `isNumeric` is strictly wider than `parseInt`: `".5"` passes it but `parseInt` gives NaN |
| JsNumbers.ShowIsNumeric | src/core/module/core.module.ts:174-177 | the decimal text of every integer passes `isNumeric` |
| Format.FormatKey | src/core/module/core.module.ts:179-184 | the formatted key has `UnformatKey` as a left inverse, differs from the key exactly when the key contains a dot, and keeps the dot; `FormatKeyDollars` fixes the wrapper as one `$` on each side |
| Format.FormatKeyDollars | src/core/module/core.module.ts:180-183 | a dotted key becomes the key wrapped in one `$` on each side, two characters longer |
| Format.Coerce | src/core/module/core.module.ts:170-172 | `formatValue` never alters the text, only its type; every string `parseInt` can read becomes a number |
| Format.FormatKeyInjective | src/core/module/core.module.ts:179-184 | distinct keys map to distinct Sequelize columns |
| Format.CoerceShow | src/core/module/core.module.ts:170-177 | `formatValue` turns the decimal text of any integer into a number |
| Format.CoerceNonNumericStart | src/core/module/core.module.ts:170-177 | a value whose first character cannot begin a number (not whitespace, a digit, `+`, `-`, `.` or `I`) stays a string |
| Format.CoerceDigitStart | src/core/module/core.module.ts:170-177 | a value that starts with a digit becomes a number, even with trailing text |
| Format.CoerceExamples | src/core/module/core.module.ts:170-177 | `""`, `">1000"` and `"active"` stay strings; `"12abc"` becomes a number |
| Pagination.GetPagination | src/core/module/core.module.ts:55-67 | the limit is null exactly when the limit text is the sentinel `'-1'`, and then the offset is 0 and the page null |
| Pagination.NoLimitSentinel | src/core/module/core.module.ts:58-61 | with limit `'-1'` the result is `{limit: null, page: null, offset: 0}`, whatever the offset and page |
| Pagination.LimitIsParseInt | src/core/module/core.module.ts:56-58 | every limit text other than the exact string `'-1'` (and `'25'` when absent) is handed to `parseInt` as it stands, so `"-01"` and `" -1"` are not the sentinel |
| Pagination.LimitParsed | src/core/module/core.module.ts:58 | for the canonical spelling of an integer other than -1, the limit is that integer |
| Pagination.DefaultLimit | src/core/module/core.module.ts:56-58 | an absent limit means 25 |
| Pagination.AbsentOffsetIsZero | src/core/module/core.module.ts:56-64 | an absent offset means offset 0, whatever the page, because the default `'0'` is truthy |
| Pagination.ExplicitOffset | src/core/module/core.module.ts:64 | an integer offset text is used as given |
| Pagination.NonEmptyOffsetIgnoresPage | src/core/module/core.module.ts:64 | any non-empty offset text, readable or not, is parsed as it stands, and the page plays no part |
| Pagination.PageDerivedOffset | src/core/module/core.module.ts:63-64 | with offset `""`, the offset is `(page - 1) * limit`, and 0 when the page is absent |
| Pagination.UnreadableInputsGiveNaN | src/core/module/core.module.ts:58-64 | with an empty offset, any page text `parseInt` cannot read gives a NaN offset; any limit text it cannot read (other than `'-1'`) gives a NaN limit, and a NaN offset when the offset is empty |
| Search.SearchClause | src/core/module/core.module.ts:73-78 | a search clause is an `iLike` on exactly `formatKeyForSequelize(field)`, a column that `UnformatKey` maps back to the field, with the term kept a string and wrapped in one `%` on each side |
| Search.SearchQuery | src/core/module/core.module.ts:69-83 | one clause per configured search field, in order; each clause matches `%search%` against that field's formatted column |
| Search.SearchClausesShape | src/core/module/core.module.ts:72-80 | every search clause is an `iLike` on a configured field, and distinct fields give distinct columns |
| Sort.SortQuery | src/core/module/core.module.ts:92-109 | at most one entry per `&`-separated token, each naming a configured sort field |
| Sort.SortTokens | src/core/module/core.module.ts:97-106 | the sort list is no longer than the token list, and every column in it is a configured sort field |
| Sort.SortTokensIsOrderedFilter | src/core/module/core.module.ts:95-106 | the sort list holds exactly the tokens whose key is a sort field, in request order, each mapped to its column and direction |
| Sort.SortKey | src/core/module/core.module.ts:98 | a token's key is its longest hyphen-free prefix: it ends at the end of the token or at the first hyphen |
| Sort.SortDirection | src/core/module/core.module.ts:99 | a token is descending exactly when its first character is a hyphen |
| Sort.DescendingKeyIsEmpty | src/core/module/core.module.ts:98-99 | a token marked descending by a leading hyphen always has the empty key |
| Sort.AllAscendingWithoutEmptyField | src/core/module/core.module.ts:97-106 | unless the empty string is a sort field, every sort entry is ascending |
| Sort.SortExampleLeadingHyphen | src/core/module/core.module.ts:95-106 | `name&-age` sorts by name ascending and drops `-age` |
| Sort.SortExampleTrailingHyphen | src/core/module/core.module.ts:95-106 | `name-desc` sorts by name ascending |
| Filter.SOp | src/core/module/core.module.ts:125-133 | `sOp` yields an operator exactly for the seven `symbolsConfig` names, never `iLike`, and misses every name shorter than two characters |
| Filter.FindIndex | src/core/module/core.module.ts:155 | the symbol search returns the first symbol in table order that occurs in the value, or none when no symbol occurs |
| Filter.ComparisonLeaf | src/core/module/core.module.ts:155-163 | an operator leaf is always keyed by `"undefined"` and needs a `=` in the value; an equality leaf holds the formatted whole value |
| Filter.FilterStep | src/core/module/core.module.ts:135-165 | an ineligible entry leaves the object unchanged; no key is ever removed; a well-formed object stays well formed |
| Filter.FilterFrom | src/core/module/core.module.ts:135-165 | the `forEach` keeps field keys holding leaves and `Op.and` / `Op.or` holding lists |
| Filter.FilterFromKeepsKeys | src/core/module/core.module.ts:135-165 | the `forEach` never removes a key it has written or started from |
| Filter.FilterQuery | src/core/module/core.module.ts:111-168 | the result maps every field to a single leaf, and `Op.and` / `Op.or` to clause lists |
| Filter.LogicalPartSpec | src/core/module/core.module.ts:144-150 | a value containing `%` (else `|`) adds one equality clause on the field per piece, each piece passed through `formatValue`; joining the pieces' texts gives back the value |
| Filter.GroupAccumulates | src/core/module/core.module.ts:149-150 | the `Op.and` / `Op.or` lists are the concatenation, in request order, of the clauses each routed entry adds; the key exists exactly when some entry adds clauses |
| Filter.LogicalClausesNonEmpty | src/core/module/core.module.ts:144-150 | a group gets clauses exactly when some eligible entry routes to it |
| Filter.FieldKeyOfInjective | src/core/module/core.module.ts:137-139 | distinct eligible parameter names give distinct field keys |
| Filter.FieldEntries | src/core/module/core.module.ts:135-165 | each eligible comparison entry sets its field's leaf, and no other field key appears |
| Filter.EligibleOnly | src/core/module/core.module.ts:137 | the eligible sub-list holds only entries of the original with an `f_` name of a filter field |
| Filter.IneligibleIgnored | src/core/module/core.module.ts:137 | the filter depends only on the eligible entries |
| Filter.FilterFromAppend | src/core/module/core.module.ts:135 | the entries are processed left to right: the filter of a concatenation is the filter of the first part continued with the second |
| Filter.FilterFromSkip | src/core/module/core.module.ts:137 | removing an ineligible entry anywhere changes nothing |
| Filter.ValueAfterIsSecondSegment | src/core/module/core.module.ts:158 | the value after a symbol is the text between its first and second occurrence |
| Filter.ComparisonLeafSpec | src/core/module/core.module.ts:155-163 | a value with a two-character symbol gives an `"undefined"`-keyed leaf holding the formatted text between its first and second `=`; any other value gives equality on the whole value |
| Filter.ComparisonBranchSymbols | src/core/module/core.module.ts:116-124 | in the comparison branch only table entries from `>=` on can match, and `>=` or `<=` in the value always selects a two-character symbol |
| Filter.NoEqualsSignMeansEquality | src/core/module/core.module.ts:155-162 | a value without `=` always becomes an equality |
| RestfulService.Lookup | src/core/module/core.module.ts:22 | a reserved parameter is absent exactly when no entry has its name |
| RestfulService.LookupFirst | src/core/module/core.module.ts:22 | a present reserved parameter is the value of the first entry with its name |
| RestfulService.RestOf | src/core/module/core.module.ts:22 | the rest of the DTO holds exactly the entries whose names are not `search`, `sort`, `page`, `limit`, `offset`: nothing else, and none of them is dropped |
| RestfulService.RestOfSingle | src/core/module/core.module.ts:22 | one entry is kept exactly when its name is not reserved |
| RestfulService.GetParams | src/core/module/core.module.ts:21-53 | the where object is well formed; a limit is never 0; when there is no limit, the offset is 0 |
| RestfulService.GetParamsNoLimit | src/core/module/core.module.ts:35-38 | `limit=-1` sends no limit and offset 0 |
| RestfulService.GetParamsLimitText | src/core/module/core.module.ts:30-38 | any limit text other than the exact `'-1'` is parsed, and sent exactly when the parsed number is truthy: `"-01"` sends -1, while `"00"`, `" 0"` and `"abc"` send none |
| RestfulService.GetParamsLimit | src/core/module/core.module.ts:30-38 | for the canonical spelling of an integer n, the limit sent is n, except for 0 and -1, which send none |
| RestfulService.GetParamsUnreadableLimit | src/core/module/core.module.ts:35-38 | an unreadable limit sends no limit and offset 0 |
| RestfulService.GetParamsDefaultPagination | src/core/module/core.module.ts:30-38 | without limit and offset, the query asks for 25 rows from offset 0 |
| RestfulService.GetParamsExplicitOffset | src/core/module/core.module.ts:30-38 | with a usable limit, an explicit offset is sent as given |
| RestfulService.GetParamsPageOffset | src/core/module/core.module.ts:30-38 | with a usable limit and offset `""`, the offset is `(page - 1) * limit` |
| RestfulService.WhereIsSearchThenFilter | src/core/module/core.module.ts:40-50 | the where object is the search entry overridden by the filter object; the emptiness guard on the rest of the DTO makes no difference |
| RestfulService.FilterAndReplacesSearch | src/core/module/core.module.ts:41-49 | when an eligible filter value contains `%`, its `Op.and` group overwrites the search clauses, which are lost |
| RestfulService.SearchSurvives | src/core/module/core.module.ts:40-49 | otherwise a present search keeps its clauses under `Op.and` |
| RestfulService.WhereAndKey | src/core/module/core.module.ts:40-50 | `Op.and` is present exactly when there is a non-empty search or an eligible filter value containing `%` |
| RestfulService.WhereOrKey | src/core/module/core.module.ts:144-150 | `Op.or` is present exactly when an eligible filter value contains `|` but no `%` |
| RestfulService.WhereFieldKeys | src/core/module/core.module.ts:135-165 | a field key is present exactly when some comparison filter names it, and it holds that filter's leaf |
| RestfulService.WhereKeys | src/core/module/core.module.ts:40-50 | `Op.and` is present iff there is a search or an `and` filter; `Op.or` iff there is an `or` filter; a field key iff some comparison filter names it, holding that filter's leaf |
| RestfulService.OrderSpec | src/core/module/core.module.ts:44-46 | without a non-empty sort parameter the order is empty; otherwise it is exactly the sort query of that parameter, listing only configured sort columns |
| RestfulService.RestOfAppend | src/core/module/core.module.ts:22 | splitting off the reserved names works entry by entry and keeps the order; with `RestOfSingle` it is the order-preserving filter of the non-reserved entries |
| RestfulService.IgnoredParameter | src/core/module/core.module.ts:22-50 | a parameter that is not reserved and not an eligible filter has no effect on the query |
| Scenarios.GteExample | src/core/module/core.module.ts:155-159 | `>=1000` becomes the `"undefined"`-keyed leaf with the number 1000 |
| Scenarios.GtExample | src/core/module/core.module.ts:155-162 | `>1000` becomes equality with the string `">1000"` |
| Scenarios.EqualityExamples | src/core/module/core.module.ts:162 | `active` becomes string equality; `1000` becomes numeric equality |
| Scenarios.OrExample | src/core/module/core.module.ts:144-150 | `f_role=admin|editor` adds two `role` equalities to `Op.or` |
| Scenarios.PageExample | src/core/module/core.module.ts:56-64 | `limit=10&page=3` gives offset 0; with `offset=` (empty) it gives 20 |
| Scenarios.OffsetTextExamples | src/core/module/core.module.ts:63-64 | with `limit=10&page=3`, `offset=abc` gives a NaN offset and `offset=5px` gives 5 |
| Scenarios.NonCanonicalLimitExamples | src/core/module/core.module.ts:30-38 | `limit=-01` sends `limit: -1`; `limit=00` sends no limit |
| Scenarios.SearchExample | src/core/module/core.module.ts:69-83 | searching `bob` over `name` and `user.email` gives two `iLike` clauses, the second on `$user.email$` |

## Left out

- Database connection and the mail/OTP utilities: they are I/O and are not part of the query compiler.
- JavaScript numbers are IEEE doubles. The model parses to unbounded integers, so precision loss, `Infinity` and `-0` on huge or negative-zero inputs are not modelled.
- Format.Coerce: `formatValue` returns `Number(value)`. The model keeps the text under a `Num` tag instead of computing the double, because `Number` differs from `parseFloat` on inputs such as `"12abc"` (it gives `NaN`) and floating point is out of scope. Only the numeric-or-string decision is modelled.
- JsNumbers.IsNumeric: models the `parseFloat` prefix test (optional sign, then a digit, a `.` followed by a digit, or `Infinity`). Exponents and other float syntax do not change that decision and are not modelled further.
- DTO values are strings. Express can deliver arrays or nested objects for repeated or bracketed keys. The non-string branch of `isNumeric` is not modelled.
- The DTO is an ordered list of key/value pairs in `Object.entries` order. JavaScript puts integer-like keys first. Such keys never start with `f_`, so the filter result does not change.
- A reserved parameter (`search`, `sort`, `page`, `limit`, `offset`) that occurs twice is read at its first occurrence. A duplicated `f_` parameter keeps both entries: for a comparison the later one wins its field key, and for an AND/OR value both append their clauses. Express would instead deliver an array for a repeated name, which is out of scope as above.
- The `where` object is a map. Its key order, which Sequelize does not use for meaning, is not modelled.
- Sequelize `Op` symbols are enum tags. The query is not executed against a database.
- `dateScope` and `embed` are part of the configuration but unused by the core, so they are carried and ignored.
- The `page` value that `getPagination` returns is not used by `getParams`, and it is not part of the query.
- Pagination.GetPagination: computes `(page - 1) * limit` on unbounded integers. NaN propagation is modelled; double rounding is not.
- The TypeScript DTO interfaces in `core.interface.ts` are not part of this model. The model takes their fields as optional strings.
