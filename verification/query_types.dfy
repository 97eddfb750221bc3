/** The shapes that flow through `RESTFulService`: the per-resource
    capability sets, the decoded parameter map, and the Sequelize-style query
    it compiles to. */
module QueryTypes {

  /** The Sequelize operator symbols the compiler names (`Op.gt`, `Op.and`, ...). */
  datatype Operator = Gt | Gte | Lt | Lte | And | Or | Ne | ILike

  /** The property key of an operator object `{[k]: v}`: an operator symbol,
      or the string `"undefined"` that a computed key becomes when the symbol
      lookup misses. */
  datatype OpKey = OpSym(op: Operator) | UndefinedName

  /** A value after `formatValue`: tagged numeric (`Number(text)` would be
      stored) or kept as the string `text`. */
  datatype Value = Num(text: string) | Str(text: string)

  /** What a field key maps to: a bare value (equality) or an operator object. */
  datatype Leaf = Eq(value: Value) | Cmp(key: OpKey, value: Value)

  /** A one-key object `{[field]: leaf}` inside an AND/OR list. */
  datatype Clause = Clause(field: string, leaf: Leaf)

  /** Keys of the `where` object: a (formatted) field name, or the
      `Op.and`/`Op.or` symbol, which never collides with a string key. */
  datatype WKey = Field(name: string) | AndKey | OrKey

  /** Values of the `where` object: a list of clauses under a logical key, or
      a leaf under a field key. */
  datatype WVal = Group(clauses: seq<Clause>) | Single(leaf: Leaf)

  type Where = map<WKey, WVal>

  /** Logical keys hold lists and field keys hold leaves. */
  predicate WellFormed(w: Where) {
    forall k :: k in w ==> (k.Field? <==> w[k].Single?)
  }

  datatype Direction = Asc | Desc

  /** An `order` entry `[field, 'ASC' | 'DESC']`. */
  type SortEntry = (string, Direction)

  /** The per-resource `params`; `dateScope` and `embed` are carried but no
      operation reads them. */
  datatype Config = Config(
    searchFields: seq<string>,
    sortFields: seq<string>,
    filterFields: seq<string>,
    dateScope: seq<string>,
    embed: seq<string>)

  /** A decoded query-string map as its `Object.entries`, in insertion order. */
  type Params = seq<(string, string)>

  /** An object's keys are distinct. */
  predicate DistinctKeys(ps: Params) {
    forall i, j :: 0 <= i < j < |ps| ==> ps[i].0 != ps[j].0
  }
}
