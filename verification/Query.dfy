/** Parsing a query string. */
module Query {
  import opened Text
  import opened Notes
  import opened Encoding

  /** Libraries the engine calls: the regex engine, the date and number
      parsers, and the debug printer.  Nothing is assumed of them. */
  datatype Env = Env(
    regexError: string -> Option<string>,
    regexMatch: (string, string) -> bool,
    parseDate: string -> Option<Date>,
    parseInstant: string -> Option<Instant>,
    parseFloat: string -> Option<F64>,
    debug: Value -> string)

  datatype QueryError = UnknownOperator(text: string) | BadValue(text: string) | BadControl(text: string)

  datatype Operator = Eq | In | All | Not | Exists | Regex | Prefix | Gt | Gte | Lt | Lte

  datatype Predicate = Predicate(field: string, op: Operator, value: string)

  datatype OrderSpec = OrderSpec(key: string, desc: bool)

  datatype ParsedQuery = ParsedQuery(
    predicates: seq<Predicate>, recursive: bool, pathPrefix: Option<string>,
    limit: Option<nat>, order: Option<OrderSpec>, kindKey: Option<string>)

  const NEW := ParsedQuery([], true, None, None, None, None)
  const CONTROL := "__anw-"

  // ---- One pair --------------------------------------------------------------------

  /** `key.rfind("__")`, or -1. */
  function LastUnderscores(key: string): (i: int)
    ensures -1 <= i <= |key| - 2 || i == -1
    ensures i >= 0 ==> key[i] == '_' && key[i + 1] == '_'
    ensures forall j | i < j && 0 <= j <= |key| - 2 :: !(key[j] == '_' && key[j + 1] == '_')
  {
    if |key| < 2 then -1
    else if key[|key| - 2] == '_' && key[|key| - 1] == '_' then |key| - 2
    else LastUnderscores(key[..|key| - 1])
  }

  function OperatorNamed(suffix: string): Option<Operator> {
    if suffix == "in" then Some(In)
    else if suffix == "all" then Some(All)
    else if suffix == "not" then Some(Not)
    else if suffix == "exists" then Some(Exists)
    else if suffix == "regex" then Some(Regex)
    else if suffix == "prefix" then Some(Prefix)
    else if suffix == "gt" then Some(Gt)
    else if suffix == "gte" then Some(Gte)
    else if suffix == "lt" then Some(Lt)
    else if suffix == "lte" then Some(Lte)
    else None
  }

  function SplitOperator(key: string): Result<(string, Operator), QueryError> {
    var i := LastUnderscores(key);
    if i < 0 then Ok((key, Eq))
    else
      match OperatorNamed(key[i + 2..])
      case Some(op) => Ok((key[..i], op))
      case None => Err(UnknownOperator(key[i + 2..]))
  }

  /** `value.trim_start_matches('/')`. */
  function TrimStart(value: string): string {
    if value != [] && value[0] == '/' then TrimStart(value[1..]) else value
  }

  lemma {:induction false} TrimStartIsUtf8(value: string)
    requires ValidUtf8(value)
    ensures ValidUtf8(TrimStart(value)) && TrimStart(TrimStart(value)) == TrimStart(value)
  {
    if value != [] && value[0] == '/' {
      TrimStartIsUtf8(value[1..]);
    }
  }

  predicate EndsWith(s: string, suffix: string) {
    |suffix| <= |s| && s[|s| - |suffix|..] == suffix
  }

  function ParseOrder(value: string): Result<OrderSpec, QueryError> {
    var desc := EndsWith(value, ":desc");
    var key := if desc then value[..|value| - 5]
               else if EndsWith(value, ":asc") then value[..|value| - 4] else value;
    if key == [] then Err(BadControl("order=" + value)) else Ok(OrderSpec(key, desc))
  }

  function ApplyControl(q: ParsedQuery, name: string, value: string): Result<ParsedQuery, QueryError> {
    if name == "recursive" then
      match ParseBool(value)
      case Some(b) => Ok(q.(recursive := b))
      case None => Err(BadControl("recursive=" + value))
    else if name == "path" then Ok(q.(pathPrefix := Some(TrimStart(value))))
    else if name == "limit" then
      match ParseUsize(value)
      case Some(n) => Ok(q.(limit := Some(n)))
      case None => Err(BadControl("limit=" + value))
    else if name == "order" then
      match ParseOrder(value)
      case Ok(spec) => Ok(q.(order := Some(spec)))
      case Err(e) => Err(e)
    else if name == "kind" then
      if value == [] then Err(BadControl("kind: empty key")) else Ok(q.(kindKey := Some(value)))
    else Err(BadControl(name))
  }

  /** Values whose shape is checked at parse time. */
  function CheckValue(env: Env, key: string, op: Operator, value: string): Option<QueryError> {
    if op == Regex then
      match env.regexError(value)
      case Some(e) => Some(BadValue(key + ": invalid regex: " + e))
      case None => None
    else if op == Exists && ParseBool(value).None? then Some(BadValue(key + "=" + value))
    else None
  }

  function AddPredicate(env: Env, q: ParsedQuery, key: string, value: string): Result<ParsedQuery, QueryError> {
    match SplitOperator(key)
    case Err(e) => Err(e)
    case Ok((field, op)) =>
      match CheckValue(env, key, op, value)
      case Some(e) => Err(e)
      case None => Ok(q.(predicates := q.predicates + [Predicate(field, op, value)]))
  }

  /** `pair.split_once('=')`, both sides decoded. */
  function KeyValue(pair: string): Result<(string, string), QueryError> {
    var eq := Find(pair, '=');
    var k := if eq.Some? then pair[..eq.value] else pair;
    var v := if eq.Some? then pair[eq.value + 1..] else [];
    if Decode(k, true).None? then Err(BadValue(k))
    else if Decode(v, true).None? then Err(BadValue(v))
    else Ok((Decode(k, true).value, Decode(v, true).value))
  }

  function AddKeyValue(env: Env, q: ParsedQuery, key: string, value: string): Result<ParsedQuery, QueryError> {
    if CONTROL <= key then ApplyControl(q, key[|CONTROL|..], value) else AddPredicate(env, q, key, value)
  }

  function AddPair(env: Env, q: ParsedQuery, pair: string): Result<ParsedQuery, QueryError> {
    if pair == [] then Ok(q)
    else
      match KeyValue(pair)
      case Ok((key, value)) => AddKeyValue(env, q, key, value)
      case Err(e) => Err(e)
  }

  // ---- The whole string ---------------------------------------------------------------

  /** Thread a state through a list, stopping at the first error. */
  function Fold<S, A, E>(f: (S, A) -> Result<S, E>, s: S, items: seq<A>): Result<S, E>
    decreases |items|
  {
    if items == [] then Ok(s)
    else
      match f(s, items[0])
      case Ok(t) => Fold(f, t, items[1..])
      case Err(e) => Err(e)
  }

  lemma {:induction false} FoldConcat<S, A, E>(f: (S, A) -> Result<S, E>, s: S, a: seq<A>, b: seq<A>)
    ensures Fold(f, s, a + b) ==
            var r := Fold(f, s, a);
            if r.Ok? then Fold(f, r.value, b) else r
    decreases |a|
  {
    if a == [] {
      assert a + b == b;
    } else {
      assert (a + b)[1..] == a[1..] + b;
      if f(s, a[0]).Ok? {
        FoldConcat(f, f(s, a[0]).value, a[1..], b);
      }
    }
  }

  lemma FoldOne<S, A, E>(f: (S, A) -> Result<S, E>, s: S, a: A)
    ensures Fold(f, s, [a]) == f(s, a)
  {
    assert [a][1..] == [];
  }

  /** A list whose items lead through the given states. */
  lemma {:induction false} FoldThrough<S, A, E>(f: (S, A) -> Result<S, E>, states: seq<S>, items: seq<A>)
    requires |states| == |items| + 1
    requires forall i | 0 <= i < |items| :: f(states[i], items[i]) == Ok(states[i + 1])
    ensures Fold(f, states[0], items) == Ok(states[|items|])
    decreases |items|
  {
    if items != [] {
      FoldThrough(f, states[1..], items[1..]);
    }
  }

  function Adding(env: Env): (ParsedQuery, string) -> Result<ParsedQuery, QueryError> {
    (q: ParsedQuery, pair: string) => AddPair(env, q, pair)
  }

  function AddPairs(env: Env, q: ParsedQuery, pairs: seq<string>): Result<ParsedQuery, QueryError> {
    Fold(Adding(env), q, pairs)
  }

  function Parsed(env: Env, raw: string): Result<ParsedQuery, QueryError> {
    AddPairs(env, NEW, Split(raw, '&'))
  }

  method Parse(env: Env, raw: string) returns (r: Result<ParsedQuery, QueryError>)
    ensures r == Parsed(env, raw)
  {
    var q := NEW;
    if raw == [] {
      assert AddPairs(env, NEW, [[]]) == AddPairs(env, NEW, [[]][1..]);
      return Ok(q);
    }
    var pairs := Split(raw, '&');
    for i := 0 to |pairs|
      invariant Parsed(env, raw) == AddPairs(env, q, pairs[i..])
    {
      assert pairs[i..][1..] == pairs[i + 1..];
      var pair := pairs[i];
      if pair == [] { continue; }
      var eq := Find(pair, '=');
      var k, v := pair, [];
      if eq.Some? { k, v := pair[..eq.value], pair[eq.value + 1..]; }
      var key := PercentDecode(k, true);
      if key.None? { return Err(BadValue(k)); }
      var value := PercentDecode(v, true);
      if value.None? { return Err(BadValue(v)); }
      if CONTROL <= key.value {
        var step := ApplyControl(q, key.value[|CONTROL|..], value.value);
        if step.Err? { return Err(step.error); }
        q := step.value;
        continue;
      }
      var split := SplitOperator(key.value);
      if split.Err? { return Err(split.error); }
      var bad := CheckValue(env, key.value, split.value.1, value.value);
      if bad.Some? { return Err(bad.value); }
      q := q.(predicates := q.predicates + [Predicate(split.value.0, split.value.1, value.value)]);
    }
    r := Ok(q);
  }

  // ---- Concatenation --------------------------------------------------------------------

  function Later<T>(early: Option<T>, late: Option<T>): Option<T> {
    if late.Some? then late else early
  }

  /** The query `a` followed by the query `b`: predicates add up, controls
      that `b` sets win. */
  function Overlay(a: ParsedQuery, b: ParsedQuery, recursive: Option<bool>): ParsedQuery {
    ParsedQuery(
      a.predicates + b.predicates,
      if recursive.Some? then recursive.value else a.recursive,
      Later(a.pathPrefix, b.pathPrefix), Later(a.limit, b.limit),
      Later(a.order, b.order), Later(a.kindKey, b.kindKey))
  }

  lemma ControlOverlay(a: ParsedQuery, b: ParsedQuery, rec: Option<bool>, name: string, value: string)
    ensures var r, s := ApplyControl(Overlay(a, b, rec), name, value), ApplyControl(b, name, value);
            if s.Err? then r == s
            else r == Ok(Overlay(a, s.value, if name == "recursive" then ParseBool(value) else rec))
  {
  }

  lemma PredicateOverlay(env: Env, a: ParsedQuery, b: ParsedQuery, rec: Option<bool>, key: string, value: string)
    ensures var r, s := AddPredicate(env, Overlay(a, b, rec), key, value), AddPredicate(env, b, key, value);
            if s.Ok? then r == Ok(Overlay(a, s.value, rec)) else r == s
  {
    if SplitOperator(key).Ok? {
      var p := Predicate(SplitOperator(key).value.0, SplitOperator(key).value.1, value);
      assert a.predicates + (b.predicates + [p]) == a.predicates + b.predicates + [p];
    }
  }

  /** The pair's own setting of `recursive`, if it is one. */
  function SetsRecursive(pair: string): Option<bool> {
    match KeyValue(pair)
    case Ok((key, value)) => if key == CONTROL + "recursive" then ParseBool(value) else None
    case Err(_) => None
  }

  /** The value of the last `__anw-recursive` among the pairs. */
  function LastRecursive(pairs: seq<string>): Option<bool> {
    if pairs == [] then None
    else Later(LastRecursive(pairs[..|pairs| - 1]), SetsRecursive(pairs[|pairs| - 1]))
  }

  lemma AddPairOverlay(env: Env, a: ParsedQuery, b: ParsedQuery, rec: Option<bool>, pair: string)
    ensures var r, s := AddPair(env, Overlay(a, b, rec), pair), AddPair(env, b, pair);
            if s.Ok? then r == Ok(Overlay(a, s.value, Later(rec, SetsRecursive(pair)))) else r == s
  {
    if pair == [] {
      DecodeNothing();
    } else if KeyValue(pair).Ok? {
      var (key, value) := KeyValue(pair).value;
      if CONTROL <= key {
        assert key == CONTROL + key[|CONTROL|..];
        assert key == CONTROL + "recursive" <==> key[|CONTROL|..] == "recursive" by {
          assert (CONTROL + "recursive")[|CONTROL|..] == "recursive";
        }
        ControlOverlay(a, b, rec, key[|CONTROL|..], value);
      } else {
        assert key != CONTROL + "recursive" by { assert CONTROL <= CONTROL + "recursive"; }
        PredicateOverlay(env, a, b, rec, key, value);
      }
    }
  }

  lemma DecodeNothing()
    ensures SetsRecursive([]).None?
  {
  }

  lemma {:induction false} AddPairsOverlay(env: Env, a: ParsedQuery, pairs: seq<string>)
    ensures var r, s := AddPairs(env, a, pairs), AddPairs(env, NEW, pairs);
            if s.Ok? then r == Ok(Overlay(a, s.value, LastRecursive(pairs))) else r == s
    decreases |pairs|
  {
    if pairs == [] {
      assert a.predicates + [] == a.predicates;
    } else {
      var init, last := pairs[..|pairs| - 1], pairs[|pairs| - 1];
      assert pairs == init + [last];
      AddPairsOverlay(env, a, init);
      FoldConcat(Adding(env), a, init, [last]);
      FoldConcat(Adding(env), NEW, init, [last]);
      assert [last][1..] == [];
      if AddPairs(env, NEW, init).Ok? {
        AddPairOverlay(env, a, AddPairs(env, NEW, init).value, LastRecursive(init), last);
      }
    }
  }

  /** Parsing `a&b` fails exactly when `a` or `b` fails, with the first error;
      otherwise it gives the predicates of `a` then those of `b`, and each
      control from the last place that sets it. */
  lemma ParseConcat(env: Env, a: string, b: string)
    ensures Parsed(env, a + "&" + b) ==
            if Parsed(env, a).Err? then Parsed(env, a)
            else if Parsed(env, b).Err? then Parsed(env, b)
            else Ok(Overlay(Parsed(env, a).value, Parsed(env, b).value, LastRecursive(Split(b, '&'))))
  {
    SplitConcat(a, b, '&');
    FoldConcat(Adding(env), NEW, Split(a, '&'), Split(b, '&'));
    if Parsed(env, a).Ok? {
      AddPairsOverlay(env, Parsed(env, a).value, Split(b, '&'));
    }
  }
}
