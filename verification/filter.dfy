/** `getFilterQuery`: the `f_`-prefixed parameters become equality,
    comparison and AND/OR clauses. */
module Filter {
  import opened Wrappers
  import opened JsStrings
  import opened QueryTypes
  import opened Format

  /** `QUERY_PREFIX.FILTER` */
  const FilterPrefix: string := "f_"

  /** The values of `symbolsConfig` in declaration order, which is the order
      `find` tries them in. */
  const Symbols: seq<string> := ["%", "|", ">=", "<=", ">", "<", "!="]

  /** The keys of `symbolsConfig`. */
  const SymbolNames: set<string> := {"gt", "gte", "lt", "lte", "and", "or", "ne"}

  /** `sOp[name]`: the operator stored under a `symbolsConfig` key; any other
      name misses, and the computed key becomes `"undefined"`. No name of
      fewer than two characters hits, and `iLike` is never among the results. */
  function SOp(name: string): (k: OpKey)
    ensures k.OpSym? <==> name in SymbolNames
    ensures |name| < 2 ==> k == UndefinedName
    ensures k != OpSym(ILike)
  {
    if name == "gt" then OpSym(Gt)
    else if name == "gte" then OpSym(Gte)
    else if name == "lt" then OpSym(Lt)
    else if name == "lte" then OpSym(Lte)
    else if name == "and" then OpSym(And)
    else if name == "or" then OpSym(Or)
    else if name == "ne" then OpSym(Ne)
    else UndefinedName
  }

  /** A raw key takes part only if it starts with `f_` and names an allowed field. */
  predicate Eligible(rawKey: string, fields: seq<string>) {
    StartsWith(rawKey, FilterPrefix) && rawKey[2..] in fields
  }

  /** The `where` key a raw filter key writes under. */
  function FieldKeyOf(rawKey: string): string
    requires |rawKey| >= 2
  {
    FormatKey(rawKey[2..])
  }

  /** `syms.find(s => raw.includes(s))`, as the position of the first symbol
      that occurs in `raw`. */
  function FindIndex(raw: string, syms: seq<string>): (r: Option<nat>)
    ensures r.Some? ==> r.value < |syms| && Includes(raw, syms[r.value])
    ensures r.Some? ==> forall j :: 0 <= j < r.value ==> !Includes(raw, syms[j])
    ensures r.None? ==> forall j :: 0 <= j < |syms| ==> !Includes(raw, syms[j])
    decreases |syms|
  {
    if |syms| == 0 then None
    else if Includes(raw, syms[0]) then Some(0)
    else
      match FindIndex(raw, syms[1..])
      case Some(k) => Some(k + 1)
      case None => None
  }

  /** `raw.split(sep)[1]`: the text between the first and the second `sep`. */
  function ValueAfter(raw: string, sep: char): string
    requires sep in raw
  {
    CountPositive(raw, sep);
    Split(raw, sep)[1]
  }

  /** The leaf for a value with neither `%` nor `|`. The symbol found is
      destructured into its first two characters `[opKey, opValue]`; when both
      exist, the leaf is `{[sOp[opKey]]: formatValue(raw.split(opValue)[1])}`,
      otherwise it is `formatValue(raw)`. */
  function ComparisonLeaf(raw: string): (l: Leaf)
    ensures l.Cmp? ==> l.key == UndefinedName && '=' in raw
    ensures l.Eq? ==> l.value == Coerce(raw)
  {
    match FindIndex(raw, Symbols)
    case Some(k) =>
      var sym := Symbols[k];
      if |sym| >= 2 then
        IncludesEachChar(raw, sym, 1);
        Cmp(SOp([sym[0]]), Coerce(ValueAfter(raw, sym[1])))
      else Eq(Coerce(raw))
    case None => Eq(Coerce(raw))
  }

  /** `raw.split(symbol).map(v => ({[key]: formatValue(v)}))` */
  function SplitLeaves(fk: string, parts: seq<string>): seq<Clause> {
    seq(|parts|, i requires 0 <= i < |parts| => Clause(fk, Eq(Coerce(parts[i]))))
  }

  /** The clauses already under a logical key (`filterQuery[op] || []`). */
  function GroupOf(w: Where, gk: WKey): seq<Clause> {
    if gk in w && w[gk].Group? then w[gk].clauses else []
  }

  /** One iteration of the `forEach` over `Object.entries(dto)`. */
  function FilterStep(acc: Where, entry: (string, string), fields: seq<string>): (r: Where)
    ensures !Eligible(entry.0, fields) ==> r == acc
    ensures forall k :: k in acc ==> k in r
    ensures WellFormed(acc) ==> WellFormed(r)
  {
    var rawKey := entry.0;
    var raw := entry.1;
    if !Eligible(rawKey, fields) then acc
    else
      var fk := FieldKeyOf(rawKey);
      if Includes(raw, "%") || Includes(raw, "|") then
        var (gk, sep) := if Includes(raw, "%") then (AndKey, '%') else (OrKey, '|');
        acc[gk := Group(GroupOf(acc, gk) + SplitLeaves(fk, Split(raw, sep)))]
      else acc[Field(fk) := Single(ComparisonLeaf(raw))]
  }

  /** The whole `forEach`, starting from `acc`: it keeps logical keys holding
      lists and field keys holding leaves. */
  function FilterFrom(acc: Where, entries: Params, fields: seq<string>): (r: Where)
    ensures WellFormed(acc) ==> WellFormed(r)
    decreases |entries|
  {
    if |entries| == 0 then acc
    else FilterFrom(FilterStep(acc, entries[0], fields), entries[1..], fields)
  }

  /** The `forEach` never removes a key from the accumulator. */
  lemma {:induction false} FilterFromKeepsKeys(acc: Where, entries: Params, fields: seq<string>)
    ensures forall k :: k in acc ==> k in FilterFrom(acc, entries, fields)
    decreases |entries|
  {
    if |entries| > 0 {
      FilterFromKeepsKeys(FilterStep(acc, entries[0], fields), entries[1..], fields);
    }
  }

  /** `getFilterQuery`: the filter contribution to `where`, with logical keys
      holding lists and field keys holding leaves. */
  function FilterQuery(entries: Params, fields: seq<string>): (w: Where)
    ensures WellFormed(w)
  {
    FilterFrom(map[], entries, fields)
  }

  // ----- The logical groups -----

  /** The separator of a logical key. */
  function Sep(gk: WKey): char {
    if gk == AndKey then '%' else '|'
  }

  /** Whether a value is split into the group under `gk`: `%` wins over `|`. */
  predicate RoutesTo(raw: string, gk: WKey) {
    if gk == AndKey then Includes(raw, "%")
    else if gk == OrKey then !Includes(raw, "%") && Includes(raw, "|")
    else false
  }

  /** The clauses one entry appends under `gk`. */
  function LogicalPart(entry: (string, string), fields: seq<string>, gk: WKey): seq<Clause> {
    if Eligible(entry.0, fields) && RoutesTo(entry.1, gk)
    then SplitLeaves(FieldKeyOf(entry.0), Split(entry.1, Sep(gk)))
    else []
  }

  /** The clauses all entries append under `gk`, in entry order. */
  function LogicalClauses(entries: Params, fields: seq<string>, gk: WKey): seq<Clause>
    decreases |entries|
  {
    if |entries| == 0 then []
    else LogicalPart(entries[0], fields, gk) + LogicalClauses(entries[1..], fields, gk)
  }

  /** The texts of the values in a list of equality clauses. */
  function Texts(cs: seq<Clause>): seq<string> {
    seq(|cs|, i requires 0 <= i < |cs| => cs[i].leaf.value.text)
  }

  /** A routed entry appends one equality clause on its field per piece of
      the value: one more than the number of separators, and joining the
      pieces back with the separator gives the raw value. */
  lemma LogicalPartSpec(entry: (string, string), fields: seq<string>, gk: WKey)
    requires gk == AndKey || gk == OrKey
    requires Eligible(entry.0, fields) && RoutesTo(entry.1, gk)
    ensures |LogicalPart(entry, fields, gk)| == Count(entry.1, Sep(gk)) + 1
    ensures forall c :: c in LogicalPart(entry, fields, gk) ==>
      c.field == FieldKeyOf(entry.0) && c.leaf.Eq?
    ensures Join(Texts(LogicalPart(entry, fields, gk)), Sep(gk)) == entry.1
    ensures forall c :: c in LogicalPart(entry, fields, gk) ==> c.leaf.value == Coerce(c.leaf.value.text)
  {
    var parts := Split(entry.1, Sep(gk));
    var part := LogicalPart(entry, fields, gk);
    assert Texts(part) == parts;
    JoinSplit(entry.1, Sep(gk));
  }

  /** One step extends the group under `gk` by exactly that entry's part. */
  lemma StepGroup(acc: Where, entry: (string, string), fields: seq<string>, gk: WKey)
    requires gk == AndKey || gk == OrKey
    ensures GroupOf(FilterStep(acc, entry, fields), gk) == GroupOf(acc, gk) + LogicalPart(entry, fields, gk)
    ensures gk in FilterStep(acc, entry, fields) <==> gk in acc || |LogicalPart(entry, fields, gk)| > 0
  {
  }

  /** The lists under `Op.and` and `Op.or` are shared by all keys: each
      accumulates the parts of every routed entry, in entry order, and the
      key exists exactly when it already did or some entry was routed to it. */
  lemma {:induction false} GroupAccumulates(acc: Where, entries: Params, fields: seq<string>, gk: WKey)
    requires gk == AndKey || gk == OrKey
    ensures GroupOf(FilterFrom(acc, entries, fields), gk) == GroupOf(acc, gk) + LogicalClauses(entries, fields, gk)
    ensures gk in FilterFrom(acc, entries, fields) <==> gk in acc || |LogicalClauses(entries, fields, gk)| > 0
  {
    GroupContents(acc, entries, fields, gk);
    GroupPresence(acc, entries, fields, gk);
  }

  lemma {:induction false} GroupContents(acc: Where, entries: Params, fields: seq<string>, gk: WKey)
    requires gk == AndKey || gk == OrKey
    ensures GroupOf(FilterFrom(acc, entries, fields), gk) == GroupOf(acc, gk) + LogicalClauses(entries, fields, gk)
    decreases |entries|
  {
    if |entries| > 0 {
      var next := FilterStep(acc, entries[0], fields);
      assert FilterFrom(acc, entries, fields) == FilterFrom(next, entries[1..], fields);
      StepGroup(acc, entries[0], fields, gk);
      GroupContents(next, entries[1..], fields, gk);
    }
  }

  lemma {:induction false} GroupPresence(acc: Where, entries: Params, fields: seq<string>, gk: WKey)
    requires gk == AndKey || gk == OrKey
    ensures gk in FilterFrom(acc, entries, fields) <==> gk in acc || |LogicalClauses(entries, fields, gk)| > 0
    decreases |entries|
  {
    if |entries| > 0 {
      var next := FilterStep(acc, entries[0], fields);
      assert FilterFrom(acc, entries, fields) == FilterFrom(next, entries[1..], fields);
      StepGroup(acc, entries[0], fields, gk);
      GroupPresence(next, entries[1..], fields, gk);
    }
  }

  /** Some entry contributes to a group exactly when one is eligible and routed to it. */
  lemma {:induction false} LogicalClausesNonEmpty(entries: Params, fields: seq<string>, gk: WKey)
    requires gk == AndKey || gk == OrKey
    ensures |LogicalClauses(entries, fields, gk)| > 0 <==>
      exists i :: 0 <= i < |entries| && Eligible(entries[i].0, fields) && RoutesTo(entries[i].1, gk)
    decreases |entries|
  {
    if |entries| > 0 {
      LogicalClausesNonEmpty(entries[1..], fields, gk);
      if Eligible(entries[0].0, fields) && RoutesTo(entries[0].1, gk) {
        LogicalPartSpec(entries[0], fields, gk);
      }
      if exists i :: 0 <= i < |entries| && Eligible(entries[i].0, fields) && RoutesTo(entries[i].1, gk) {
        var i :| 0 <= i < |entries| && Eligible(entries[i].0, fields) && RoutesTo(entries[i].1, gk);
        if i > 0 {
          assert entries[1..][i - 1] == entries[i];
        }
      }
    }
  }

  // ----- Field keys -----

  /** An entry that writes a field key: eligible, with neither `%` nor `|`. */
  predicate IsComparisonEntry(entry: (string, string), fields: seq<string>) {
    Eligible(entry.0, fields) && !Includes(entry.1, "%") && !Includes(entry.1, "|")
  }

  /** Two eligible raw keys that write the same `where` key are the same key. */
  lemma FieldKeyOfInjective(a: string, b: string, fields: seq<string>)
    requires Eligible(a, fields) && Eligible(b, fields)
    requires FieldKeyOf(a) == FieldKeyOf(b)
    ensures a == b
  {
    FormatKeyInjective(a[2..], b[2..]);
    assert a == a[..2] + a[2..] && b == b[..2] + b[2..];
  }

  /** Entries that do not write `Field(k)` leave it as it was. */
  lemma {:induction false} FilterFromKeepsField(acc: Where, entries: Params, fields: seq<string>, k: string)
    requires forall j :: 0 <= j < |entries| && IsComparisonEntry(entries[j], fields) ==> FieldKeyOf(entries[j].0) != k
    ensures Field(k) in FilterFrom(acc, entries, fields) <==> Field(k) in acc
    ensures Field(k) in acc ==> FilterFrom(acc, entries, fields)[Field(k)] == acc[Field(k)]
    decreases |entries|
  {
    if |entries| > 0 {
      assert IsComparisonEntry(entries[0], fields) ==> FieldKeyOf(entries[0].0) != k;
      FilterFromKeepsField(FilterStep(acc, entries[0], fields), entries[1..], fields, k);
    }
  }

  /** Every comparison entry leaves its leaf under its own field key, and no
      other field key appears: since an object's keys are distinct, no later
      entry overwrites an earlier one. */
  lemma {:induction false} FieldEntries(acc: Where, entries: Params, fields: seq<string>)
    requires DistinctKeys(entries)
    ensures forall i :: 0 <= i < |entries| && IsComparisonEntry(entries[i], fields) ==>
      && Field(FieldKeyOf(entries[i].0)) in FilterFrom(acc, entries, fields)
      && FilterFrom(acc, entries, fields)[Field(FieldKeyOf(entries[i].0))] == Single(ComparisonLeaf(entries[i].1))
    ensures forall k :: Field(k) in FilterFrom(acc, entries, fields) ==>
      Field(k) in acc || exists i :: 0 <= i < |entries| && IsComparisonEntry(entries[i], fields) && FieldKeyOf(entries[i].0) == k
    decreases |entries|
  {
    if |entries| > 0 {
      var e := entries[0];
      var rest := entries[1..];
      var next := FilterStep(acc, e, fields);
      assert DistinctKeys(rest) by {
        forall i, j | 0 <= i < j < |rest|
          ensures rest[i].0 != rest[j].0
        {
          assert rest[i] == entries[i + 1] && rest[j] == entries[j + 1];
        }
      }
      FieldEntries(next, rest, fields);
      var r := FilterFrom(acc, entries, fields);
      assert r == FilterFrom(next, rest, fields);
      if IsComparisonEntry(e, fields) {
        var k := FieldKeyOf(e.0);
        forall j | 0 <= j < |rest| && IsComparisonEntry(rest[j], fields)
          ensures FieldKeyOf(rest[j].0) != k
        {
          assert rest[j] == entries[j + 1];
          if FieldKeyOf(rest[j].0) == k {
            FieldKeyOfInjective(rest[j].0, e.0, fields);
          }
        }
        FilterFromKeepsField(next, rest, fields, k);
      }
      forall i | 0 <= i < |entries| && IsComparisonEntry(entries[i], fields)
        ensures Field(FieldKeyOf(entries[i].0)) in r
        ensures r[Field(FieldKeyOf(entries[i].0))] == Single(ComparisonLeaf(entries[i].1))
      {
        if i > 0 {
          assert entries[i] == rest[i - 1];
        }
      }
      forall k | Field(k) in r
        ensures Field(k) in acc || exists i :: 0 <= i < |entries| && IsComparisonEntry(entries[i], fields) && FieldKeyOf(entries[i].0) == k
      {
        if Field(k) !in next {
        } else if Field(k) !in acc {
          assert IsComparisonEntry(e, fields) && FieldKeyOf(e.0) == k;
        }
        if exists i :: 0 <= i < |rest| && IsComparisonEntry(rest[i], fields) && FieldKeyOf(rest[i].0) == k {
          var i :| 0 <= i < |rest| && IsComparisonEntry(rest[i], fields) && FieldKeyOf(rest[i].0) == k;
          assert entries[i + 1] == rest[i];
        }
      }
    }
  }

  // ----- Ineligible keys -----

  /** The entries whose keys are eligible, in order. */
  function EligibleOnly(entries: Params, fields: seq<string>): (r: Params)
    ensures forall e :: e in r ==> e in entries && Eligible(e.0, fields)
    decreases |entries|
  {
    if |entries| == 0 then []
    else if Eligible(entries[0].0, fields) then [entries[0]] + EligibleOnly(entries[1..], fields)
    else EligibleOnly(entries[1..], fields)
  }

  /** Keys without the `f_` prefix or naming no allowed field contribute
      nothing: dropping them all leaves the result unchanged. */
  lemma {:induction false} IneligibleIgnored(acc: Where, entries: Params, fields: seq<string>)
    ensures FilterFrom(acc, entries, fields) == FilterFrom(acc, EligibleOnly(entries, fields), fields)
    decreases |entries|
  {
    if |entries| > 0 {
      if Eligible(entries[0].0, fields) {
        IneligibleIgnored(FilterStep(acc, entries[0], fields), entries[1..], fields);
        var el := [entries[0]] + EligibleOnly(entries[1..], fields);
        assert el[0] == entries[0] && el[1..] == EligibleOnly(entries[1..], fields);
      } else {
        IneligibleIgnored(acc, entries[1..], fields);
      }
    }
  }

  /** Running over a concatenation is running over each part in turn. */
  lemma {:induction false} FilterFromAppend(acc: Where, a: Params, b: Params, fields: seq<string>)
    ensures FilterFrom(acc, a + b, fields) == FilterFrom(FilterFrom(acc, a, fields), b, fields)
    decreases |a|
  {
    if |a| > 0 {
      assert (a + b)[0] == a[0] && (a + b)[1..] == a[1..] + b;
      FilterFromAppend(FilterStep(acc, a[0], fields), a[1..], b, fields);
    } else {
      assert a + b == b;
    }
  }

  /** An ineligible entry anywhere can be removed without changing the result. */
  lemma FilterFromSkip(acc: Where, a: Params, e: (string, string), b: Params, fields: seq<string>)
    requires !Eligible(e.0, fields)
    ensures FilterFrom(acc, a + [e] + b, fields) == FilterFrom(acc, a + b, fields)
  {
    FilterFromAppend(acc, a + [e], b, fields);
    FilterFromAppend(acc, a, [e], fields);
    FilterFromAppend(acc, a, b, fields);
  }

  // ----- Comparisons -----

  /** Whether the first symbol found is one of the two-character ones. */
  predicate TwoCharMatch(raw: string) {
    var r := FindIndex(raw, Symbols);
    r.Some? && |Symbols[r.value]| == 2
  }

  /** `raw.split(sep)[1]` is the segment between the first `sep` and the next
      one (or the end): `raw` starts with the first segment, `sep`, and it. */
  lemma ValueAfterIsSecondSegment(raw: string, sep: char)
    requires sep in raw
    ensures StartsWith(raw, Split(raw, sep)[0] + [sep] + ValueAfter(raw, sep))
    ensures sep !in Split(raw, sep)[0] && sep !in ValueAfter(raw, sep)
    ensures var n := |Split(raw, sep)[0]| + 1 + |ValueAfter(raw, sep)|;
      n == |raw| || raw[n] == sep
  {
    CountPositive(raw, sep);
    var parts := Split(raw, sep);
    JoinSplit(raw, sep);
    var tail := parts[1..];
    assert Join(parts, sep) == parts[0] + [sep] + Join(tail, sep);
    var pre := parts[0] + [sep] + parts[1];
    if |tail| == 1 {
      assert raw == pre;
    } else {
      assert Join(tail, sep) == parts[1] + [sep] + Join(tail[1..], sep);
      assert raw == pre + [sep] + Join(tail[1..], sep);
      assert raw[|pre|] == sep;
    }
    assert raw[..|pre|] == pre;
  }

  /** The leaf of a value with neither `%` nor `|`, as the code behaves: a
      two-character symbol (`>=`, `<=`, `!=`) found first gives an operator
      object under the key `"undefined"` (the lookup `sOp['>']` misses) whose
      value is the text after the first `=`; a lone `>` or `<`, or no symbol,
      gives plain equality on the whole raw value. */
  lemma ComparisonLeafSpec(raw: string)
    ensures TwoCharMatch(raw) ==>
      '=' in raw && ComparisonLeaf(raw) == Cmp(UndefinedName, Coerce(ValueAfter(raw, '=')))
    ensures !TwoCharMatch(raw) ==> ComparisonLeaf(raw) == Eq(Coerce(raw))
  {
    var r := FindIndex(raw, Symbols);
    if r.Some? && |Symbols[r.value]| >= 2 {
      var sym := Symbols[r.value];
      assert sym[1] == '=' && |sym| == 2;
      IncludesEachChar(raw, sym, 1);
      assert SOp([sym[0]]) == UndefinedName;
    }
  }

  /** In the comparison branch `%` and `|` are absent, so the symbol found
      is one of `>=`, `<=`, `>`, `<`, `!=`; and a `>=` or `<=` anywhere in
      the value makes the match two-character. */
  lemma ComparisonBranchSymbols(raw: string)
    requires !Includes(raw, "%") && !Includes(raw, "|")
    ensures FindIndex(raw, Symbols).Some? ==> 2 <= FindIndex(raw, Symbols).value
    ensures Includes(raw, ">=") || Includes(raw, "<=") ==> TwoCharMatch(raw)
  {
    if Includes(raw, ">=") || Includes(raw, "<=") {
      assert Includes(raw, Symbols[2]) || Includes(raw, Symbols[3]);
    }
  }

  /** Without an `=` no two-character symbol can match, so the leaf is
      equality on the whole raw value, even when it starts with `>` or `<`. */
  lemma NoEqualsSignMeansEquality(raw: string)
    requires '=' !in raw
    ensures ComparisonLeaf(raw) == Eq(Coerce(raw))
  {
    var r := FindIndex(raw, Symbols);
    if r.Some? && |Symbols[r.value]| == 2 {
      assert Symbols[r.value][1] == '=';
      IncludesEachChar(raw, Symbols[r.value], 1);
    }
    ComparisonLeafSpec(raw);
  }
}
