/**
 * The Pokemon detail and species GraphQL hooks: how the `idOrName`
 * argument is split into the query variables `id` and `name`, the React
 * Query cache key built from them, and when the query is enabled. The
 * request itself is not part of the model.
 */
module GraphqlHooks {
  import opened Js
  import opened Text

  /** The `string | number` argument. */
  datatype IdOrName = Num(n: int) | Str(s: string)

  /**
   * `Number(s)` on strings made of decimal digits, where it is their value
   * ("" is 0); every other string is taken to be `NaN` (`None`).
   */
  function JsNumber(s: string): (r: Option<nat>)
    ensures r.Some? <==> AllDigits(s)
    ensures s == [] ==> r == Some(0)
    ensures r.Some? && s != [] ==> ParseInt(s) == r
  {
    if !AllDigits(s) then None
    else if s == [] then Some(0)
    else ParseIntDigits(s); Some(DigitsValue(s))
  }

  /**
   * `typeof idOrName === 'number' || !isNaN(Number(idOrName))`: numbers
   * and digit strings, the empty string among them.
   */
  predicate IsNumeric(x: IdOrName)
    ensures IsNumeric(x) <==> x.Num? || AllDigits(x.s)
  {
    x.Num? || JsNumber(x.s).Some?
  }

  /** The query variables `{ id, name }`. */
  datatype Variables = Variables(id: Option<int>, name: Option<string>)

  /** `id` is `Number(idOrName)` for a numeric argument, otherwise `name` is `String(idOrName)`. */
  function Classify(x: IdOrName): (v: Variables)
    ensures v.id.Some? <==> IsNumeric(x)
    ensures v.id.Some? != v.name.Some?
  {
    if IsNumeric(x) then
      Variables(Some(if x.Num? then x.n else JsNumber(x.s).value), None)
    else Variables(None, Some(x.s))
  }

  /** `enabled && (!!id || !!name)`: the flag is set and there is a non-zero id or a non-empty name. */
  predicate Enabled(flag: bool, v: Variables) {
    flag && (TruthyInt(v.id) || TruthyString(v.name))
  }

  /** The React Query cache key `[kind, id, name]`. */
  datatype QueryKey = QueryKey(kind: string, id: Option<int>, name: Option<string>)

  /** What a hook hands to `useQuery`: key, request variables and the enabled flag. */
  datatype Query = Query(key: QueryKey, variables: Variables, enabled: bool)

  /**
   * The shared body of both hooks. The key carries the request's own
   * variables; exactly one of `id` and `name` is set; a number or digit
   * string goes to `id`, any other string to `name`; and the query runs
   * exactly when the flag is set and the argument is not zero.
   */
  function MakeQuery(kind: string, x: IdOrName, flag: bool): (q: Query)
    ensures q.key == QueryKey(kind, q.variables.id, q.variables.name)
    ensures q.variables.id.Some? != q.variables.name.Some?
    ensures x.Num? ==> q.variables == Variables(Some(x.n), None)
    ensures x.Str? && AllDigits(x.s) ==> q.variables == Variables(Some(DigitsValue(x.s)), None)
    ensures x.Str? && !AllDigits(x.s) ==> q.variables == Variables(None, Some(x.s))
    ensures q.enabled <==> flag && !IsZeroArgument(x)
  {
    EnabledIff(flag, x);
    var v := Classify(x);
    Query(QueryKey(kind, v.id, v.name), v, Enabled(flag, v))
  }

  /** `usePokemonDetailGraphQL(idOrName, enabled)`. */
  function PokemonDetailQuery(x: IdOrName, flag: bool): (q: Query)
    ensures q.key.kind == "pokemon-detail-graphql"
  {
    MakeQuery("pokemon-detail-graphql", x, flag)
  }

  /** `usePokemonSpeciesGraphQL(idOrName, enabled)`. */
  function PokemonSpeciesQuery(x: IdOrName, flag: bool): (q: Query)
    ensures q.key.kind == "pokemon-species-graphql"
  {
    MakeQuery("pokemon-species-graphql", x, flag)
  }

  /** A number always becomes `id`, unchanged. */
  lemma NumberGoesToId(n: int)
    ensures Classify(Num(n)) == Variables(Some(n), None)
  {
  }

  /** A digit string becomes the `id` it spells. */
  lemma DigitStringGoesToId(s: string)
    requires AllDigits(s)
    ensures Classify(Str(s)) == Variables(Some(DigitsValue(s)), None)
  {
  }

  /** Any other string becomes `name`, unchanged. */
  lemma OtherStringGoesToName(s: string)
    requires !AllDigits(s)
    ensures Classify(Str(s)) == Variables(None, Some(s))
    ensures s != []
  {
  }

  /** A value zero in JavaScript's eyes: the number 0, or a digit string of value 0 (including ""). */
  predicate IsZeroArgument(x: IdOrName) {
    match x
    case Num(n) => n == 0
    case Str(s) => AllDigits(s) && DigitsValue(s) == 0
  }

  /**
   * The query runs exactly when the flag is set and the argument is not
   * zero: every non-numeric string is non-empty, so it always names a
   * Pokemon.
   */
  lemma EnabledIff(flag: bool, x: IdOrName)
    ensures Enabled(flag, Classify(x)) <==> flag && !IsZeroArgument(x)
  {
    if x.Str? && !AllDigits(x.s) {
      OtherStringGoesToName(x.s);
    }
  }

  /** "0", "" and 0 keep both hooks disabled; "25" enables them. */
  lemma ZeroAndEmptyDisabled(flag: bool)
    ensures !PokemonDetailQuery(Str("0"), flag).enabled
    ensures !PokemonDetailQuery(Str(""), flag).enabled
    ensures !PokemonSpeciesQuery(Num(0), flag).enabled
    ensures PokemonDetailQuery(Str("25"), true).enabled
  {
    EnabledIff(flag, Str("0"));
    EnabledIff(true, Str("25"));
    assert "25"[..1] == "2";
  }

  /** The numeral of a number and the number itself share one cache entry and one request. */
  lemma NumeralSharesKey(n: nat, kind: string, flag: bool)
    ensures MakeQuery(kind, Str(NatToString(n)), flag) == MakeQuery(kind, Num(n), flag)
  {
    NatToStringRoundTrip(n);
  }

  /** Equal cache keys mean equal request variables, so a cached result answers the same request. */
  lemma KeyDeterminesVariables(kind: string, x: IdOrName, y: IdOrName, flag: bool, flag': bool)
    requires MakeQuery(kind, x, flag).key == MakeQuery(kind, y, flag').key
    ensures MakeQuery(kind, x, flag).variables == MakeQuery(kind, y, flag').variables
  {
  }

  /** A detail query and a species query never share a cache entry. */
  lemma DetailAndSpeciesKeysDiffer(x: IdOrName, y: IdOrName, flag: bool, flag': bool)
    ensures PokemonDetailQuery(x, flag).key != PokemonSpeciesQuery(y, flag').key
  {
    assert "pokemon-detail-graphql"[8] != "pokemon-species-graphql"[8];
  }
}
