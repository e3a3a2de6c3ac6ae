/** Writing a query out, and reading it back. */
module QueryPrint {
  import opened Text
  import opened Encoding
  import opened Query

  function Suffix(op: Operator): string {
    match op
    case Eq => ""
    case In => "__in"
    case All => "__all"
    case Not => "__not"
    case Exists => "__exists"
    case Regex => "__regex"
    case Prefix => "__prefix"
    case Gt => "__gt"
    case Gte => "__gte"
    case Lt => "__lt"
    case Lte => "__lte"
  }

  // ---- The operator is what follows the last `__` ----------------------------------------

  lemma LastUnderscoresIs(key: string, i: int)
    requires 0 <= i <= |key| - 2 && key[i] == '_' && key[i + 1] == '_'
    requires forall j | i < j <= |key| - 2 :: !(key[j] == '_' && key[j + 1] == '_')
    ensures LastUnderscores(key) == i
  {
  }

  /** In a name without underscores after `__`, that is the last one. */
  lemma LastBefore(field: string, name: string)
    requires forall c <- name :: c != '_'
    ensures LastUnderscores(field + ['_', '_'] + name) == |field|
  {
    var key := field + ['_', '_'] + name;
    forall j | |field| < j <= |key| - 2 ensures !(key[j] == '_' && key[j + 1] == '_') {
      assert key[j + 1] == name[j - 1 - |field|] && name[j - 1 - |field|] in name;
    }
    LastUnderscoresIs(key, |field|);
  }

  /** Whatever underscores the field ends with, the operator is found again. */
  lemma OperatorIsLast(field: string, op: Operator)
    requires op != Eq
    ensures SplitOperator(field + Suffix(op)) == Ok((field, op))
  {
    SuffixShape(op);
    Regroup(field, Suffix(op));
    SplitsBefore(field, Suffix(op)[2..], op);
  }

  lemma Regroup(field: string, suffix: string)
    requires |suffix| > 2 && suffix[0] == '_' && suffix[1] == '_'
    ensures field + suffix == field + ['_', '_'] + suffix[2..]
  {
  }

  lemma SplitsBefore(field: string, name: string, op: Operator)
    requires OperatorNamed(name) == Some(op) && forall c <- name :: c != '_'
    ensures SplitOperator(field + ['_', '_'] + name) == Ok((field, op))
  {
    var key := field + ['_', '_'] + name;
    LastBefore(field, name);
    assert key[|field| + 2..] == name && key[..|field|] == field;
  }

  lemma SuffixShape(op: Operator)
    requires op != Eq
    ensures |Suffix(op)| > 2 && Suffix(op)[0] == '_' && Suffix(op)[1] == '_'
    ensures forall c <- Suffix(op)[2..] :: c != '_'
    ensures OperatorNamed(Suffix(op)[2..]) == Some(op)
  {
    match op {
      case In => assert Suffix(op)[2..] == "in";
      case All => assert Suffix(op)[2..] == "all";
      case Not => assert Suffix(op)[2..] == "not";
      case Exists => assert Suffix(op)[2..] == "exists";
      case Regex => assert Suffix(op)[2..] == "regex";
      case Prefix => assert Suffix(op)[2..] == "prefix";
      case Gt => assert Suffix(op)[2..] == "gt";
      case Gte => assert Suffix(op)[2..] == "gte";
      case Lt => assert Suffix(op)[2..] == "lt";
      case Lte => assert Suffix(op)[2..] == "lte";
    }
  }

  // ---- Printing ----------------------------------------------------------------------------

  function Pair(key: string, value: string): string
    requires ByteText(key) && ByteText(value)
  {
    Encode(key, false) + "=" + Encode(value, false)
  }

  /** What can be written in a query string and is in the form parsing leaves
      it: keys outside the control namespace, bare equality on fields without
      `__`, checked values, and control values as parsing normalises them. */
  predicate Printable(env: Env, p: Predicate) {
    && ValidUtf8(p.field + Suffix(p.op)) && ValidUtf8(p.value)
    && !(CONTROL <= p.field + Suffix(p.op))
    && (p.op == Eq ==> LastUnderscores(p.field) == -1)
    && (p.op == Exists ==> ParseBool(p.value).Some?)
    && (p.op == Regex ==> env.regexError(p.value).None?)
  }

  predicate PrintableControls(q: ParsedQuery) {
    && (q.pathPrefix.Some? ==> ValidUtf8(q.pathPrefix.value) && TrimStart(q.pathPrefix.value) == q.pathPrefix.value)
    && (q.limit.Some? ==> q.limit.value <= USIZE_MAX)
    && (q.order.Some? ==> ValidUtf8(q.order.value.key) && q.order.value.key != [])
    && (q.kindKey.Some? ==> ValidUtf8(q.kindKey.value) && q.kindKey.value != [])
  }

  predicate PrintableQuery(env: Env, q: ParsedQuery) {
    (forall p <- q.predicates :: Printable(env, p)) && PrintableControls(q)
  }

  function PrintPredicate(env: Env, p: Predicate): string
    requires Printable(env, p)
  {
    ValidIsBytes(p.field + Suffix(p.op));
    ValidIsBytes(p.value);
    Pair(p.field + Suffix(p.op), p.value)
  }

  function PrintPredicates(env: Env, ps: seq<Predicate>): seq<string>
    requires forall p <- ps :: Printable(env, p)
  {
    if ps == [] then []
    else PrintPredicates(env, ps[..|ps| - 1]) + [PrintPredicate(env, ps[|ps| - 1])]
  }

  function OrderText(spec: OrderSpec): string {
    spec.key + if spec.desc then ":desc" else ":asc"
  }

  function ControlPair(name: string, value: string): string
    requires ByteText(name) && ByteText(value)
  {
    Pair(CONTROL + name, value)
  }

  function PrintRecursive(q: ParsedQuery): seq<string> {
    if q.recursive then [] else [ControlPair("recursive", "false")]
  }

  function PrintPath(q: ParsedQuery): seq<string>
    requires PrintableControls(q)
  {
    if q.pathPrefix.None? then []
    else
      ValidIsBytes(q.pathPrefix.value);
      [ControlPair("path", q.pathPrefix.value)]
  }

  function PrintLimit(q: ParsedQuery): seq<string> {
    if q.limit.None? then []
    else
      NatTextValue(q.limit.value);
      [ControlPair("limit", NatText(q.limit.value))]
  }

  function PrintOrder(q: ParsedQuery): seq<string>
    requires PrintableControls(q)
  {
    if q.order.None? then []
    else
      ValidIsBytes(q.order.value.key);
      [ControlPair("order", OrderText(q.order.value))]
  }

  function PrintKind(q: ParsedQuery): seq<string>
    requires PrintableControls(q)
  {
    if q.kindKey.None? then []
    else
      ValidIsBytes(q.kindKey.value);
      [ControlPair("kind", q.kindKey.value)]
  }

  function PrintPairs(env: Env, q: ParsedQuery): seq<string>
    requires PrintableQuery(env, q)
  {
    PrintPredicates(env, q.predicates)
    + (PrintRecursive(q) + (PrintPath(q) + (PrintLimit(q) + (PrintOrder(q) + PrintKind(q)))))
  }

  function Print(env: Env, q: ParsedQuery): string
    requires PrintableQuery(env, q)
  {
    Join(PrintPairs(env, q), '&')
  }

  // ---- Reading back --------------------------------------------------------------------------

  lemma SplitsAtEquals(k: string, v: string)
    requires '=' !in k && Decode(k, true).Some? && Decode(v, true).Some?
    ensures KeyValue(k + "=" + v) == Ok((Decode(k, true).value, Decode(v, true).value))
  {
    FindIs(k, v, '=');
    var pair := k + "=" + v;
    assert pair[..|k|] == k && pair[|k| + 1..] == v;
  }

  lemma EncodedIsFree(s: string)
    requires ValidUtf8(s)
    ensures ByteText(s) && '=' !in Encode(s, false) && '&' !in Encode(s, false)
  {
    ValidIsBytes(s);
    EncodeIsPlain(s, false);
  }

  /** A printed pair holds no `&` and reads back as its key and its value. */
  lemma PairReads(key: string, value: string)
    requires ValidUtf8(key) && ValidUtf8(value)
    ensures ByteText(key) && ByteText(value) && '&' !in Pair(key, value) && Pair(key, value) != []
    ensures KeyValue(Pair(key, value)) == Ok((key, value))
  {
    EncodedIsFree(key);
    EncodedIsFree(value);
    DecodeUndoesEncode(key, false, true);
    DecodeUndoesEncode(value, false, true);
    SplitsAtEquals(Encode(key, false), Encode(value, false));
  }

  lemma PredicateReads(env: Env, q: ParsedQuery, p: Predicate)
    requires Printable(env, p)
    ensures '&' !in PrintPredicate(env, p)
    ensures AddPair(env, q, PrintPredicate(env, p)) == Ok(q.(predicates := q.predicates + [p]))
  {
    var key := p.field + Suffix(p.op);
    PairReads(key, p.value);
    if p.op != Eq {
      OperatorIsLast(p.field, p.op);
    } else {
      assert key == p.field;
    }
  }

  lemma {:induction false} PredicatesRead(env: Env, q: ParsedQuery, ps: seq<Predicate>)
    requires forall p <- ps :: Printable(env, p)
    ensures Free('&', PrintPredicates(env, ps))
    ensures AddPairs(env, q, PrintPredicates(env, ps)) == Ok(q.(predicates := q.predicates + ps))
    decreases |ps|
  {
    if ps == [] {
      assert q.predicates + ps == q.predicates;
    } else {
      var init, last := ps[..|ps| - 1], ps[|ps| - 1];
      PredicatesRead(env, q, init);
      PredicateReads(env, q.(predicates := q.predicates + init), last);
      OneMoreRead(env, q, init, last, PrintPredicates(env, init), PrintPredicate(env, last));
      assert ps == init + [last];
    }
  }

  lemma OneMoreRead(env: Env, q: ParsedQuery, init: seq<Predicate>, last: Predicate, pairs: seq<string>, pair: string)
    requires AddPairs(env, q, pairs) == Ok(q.(predicates := q.predicates + init))
    requires AddPair(env, q.(predicates := q.predicates + init), pair)
          == Ok(q.(predicates := q.predicates + init + [last]))
    ensures AddPairs(env, q, pairs + [pair]) == Ok(q.(predicates := q.predicates + (init + [last])))
  {
    FoldConcat(Adding(env), q, pairs, [pair]);
    FoldOne(Adding(env), q.(predicates := q.predicates + init), pair);
    assert q.predicates + init + [last] == q.predicates + (init + [last]);
  }

  lemma ControlReads(env: Env, q: ParsedQuery, name: string, value: string)
    requires name in ["recursive", "path", "limit", "order", "kind"] && ValidUtf8(value)
    ensures ByteText(name) && ByteText(value) && '&' !in ControlPair(name, value)
    ensures AddPairs(env, q, [ControlPair(name, value)]) == ApplyControl(q, name, value)
  {
    AsciiIsUtf8(CONTROL + name);
    PairReads(CONTROL + name, value);
    assert (CONTROL + name)[|CONTROL|..] == name;
    FoldOne(Adding(env), q, ControlPair(name, value));
  }

  lemma OrderReads(spec: OrderSpec)
    requires spec.key != []
    ensures ParseOrder(OrderText(spec)) == Ok(spec)
  {
    var text := OrderText(spec);
    if spec.desc {
      assert text[|text| - 5..] == ":desc" && text[..|text| - 5] == spec.key;
    } else {
      assert text[|text| - 4..] == ":asc" && text[..|text| - 4] == spec.key;
      if |text| >= 5 {
        assert text[|text| - 5..][1..] == ":asc";
        assert ":desc"[1..] == "desc";
      }
    }
  }

  lemma RecursiveReads(env: Env, q: ParsedQuery, into: ParsedQuery)
    requires into.recursive
    ensures Free('&', PrintRecursive(q))
    ensures AddPairs(env, into, PrintRecursive(q)) == Ok(into.(recursive := q.recursive))
  {
    if !q.recursive {
      AsciiIsUtf8("false");
      ControlReads(env, into, "recursive", "false");
    }
  }

  lemma PathReads(env: Env, q: ParsedQuery, into: ParsedQuery)
    requires PrintableControls(q) && into.pathPrefix.None?
    ensures Free('&', PrintPath(q))
    ensures AddPairs(env, into, PrintPath(q)) == Ok(into.(pathPrefix := q.pathPrefix))
  {
    if q.pathPrefix.Some? {
      ControlReads(env, into, "path", q.pathPrefix.value);
    }
  }

  lemma LimitReads(env: Env, q: ParsedQuery, into: ParsedQuery)
    requires PrintableControls(q) && into.limit.None?
    ensures Free('&', PrintLimit(q))
    ensures AddPairs(env, into, PrintLimit(q)) == Ok(into.(limit := q.limit))
  {
    if q.limit.Some? {
      NatTextValue(q.limit.value);
      AsciiIsUtf8(NatText(q.limit.value));
      ParsePrintedUsize(q.limit.value);
      ControlReads(env, into, "limit", NatText(q.limit.value));
    }
  }

  lemma OrderControlReads(env: Env, q: ParsedQuery, into: ParsedQuery)
    requires PrintableControls(q) && into.order.None?
    ensures Free('&', PrintOrder(q))
    ensures AddPairs(env, into, PrintOrder(q)) == Ok(into.(order := q.order))
  {
    if q.order.Some? {
      var spec := q.order.value;
      AsciiIsUtf8(if spec.desc then ":desc" else ":asc");
      Utf8Concat(spec.key, if spec.desc then ":desc" else ":asc");
      OrderReads(spec);
      ControlReads(env, into, "order", OrderText(spec));
    }
  }

  lemma KindReads(env: Env, q: ParsedQuery, into: ParsedQuery)
    requires PrintableControls(q) && into.kindKey.None?
    ensures Free('&', PrintKind(q))
    ensures AddPairs(env, into, PrintKind(q)) == Ok(into.(kindKey := q.kindKey))
  {
    if q.kindKey.Some? {
      ControlReads(env, into, "kind", q.kindKey.value);
    }
  }

  lemma PairsRead(env: Env, q: ParsedQuery)
    requires PrintableQuery(env, q)
    ensures Free('&', PrintPairs(env, q))
    ensures AddPairs(env, NEW, PrintPairs(env, q)) == Ok(q)
  {
    var q1 := NEW.(predicates := q.predicates);
    var q2 := q1.(recursive := q.recursive);
    var q3 := q2.(pathPrefix := q.pathPrefix);
    var q4 := q3.(limit := q.limit);
    var q5 := q4.(order := q.order);
    PredicatesRead(env, NEW, q.predicates);
    assert NEW.predicates + q.predicates == q.predicates;
    RecursiveReads(env, q, q1);
    PathReads(env, q, q2);
    LimitReads(env, q, q3);
    OrderControlReads(env, q, q4);
    KindReads(env, q, q5);
    FoldConcat(Adding(env), q4, PrintOrder(q), PrintKind(q));
    FoldConcat(Adding(env), q3, PrintLimit(q), PrintOrder(q) + PrintKind(q));
    FoldConcat(Adding(env), q2, PrintPath(q), PrintLimit(q) + (PrintOrder(q) + PrintKind(q)));
    FoldConcat(Adding(env), q1, PrintRecursive(q), PrintPath(q) + (PrintLimit(q) + (PrintOrder(q) + PrintKind(q))));
    FoldConcat(Adding(env), NEW, PrintPredicates(env, q.predicates),
      PrintRecursive(q) + (PrintPath(q) + (PrintLimit(q) + (PrintOrder(q) + PrintKind(q)))));
    assert q5.(kindKey := q.kindKey) == q;
  }

  /** Parsing undoes printing: the same predicates in the same order and the
      same controls. */
  lemma ParseUndoesPrint(env: Env, q: ParsedQuery)
    requires PrintableQuery(env, q)
    ensures Parsed(env, Print(env, q)) == Ok(q)
  {
    PairsRead(env, q);
    var pairs := PrintPairs(env, q);
    if pairs == [] {
      assert Split(Print(env, q), '&') == [[]];
      var none: seq<string> := [[]];
      assert none[1..] == [];
      assert AddPairs(env, NEW, none) == AddPairs(env, NEW, none[1..]);
    } else {
      SplitJoin(pairs, '&');
    }
  }

  // ---- Everything that parses can be printed ---------------------------------------------------

  /** Splitting off the operator loses nothing of the key. */
  lemma OperatorRejoins(key: string)
    requires SplitOperator(key).Ok?
    ensures var (field, op) := SplitOperator(key).value;
            field + Suffix(op) == key && (op == Eq ==> LastUnderscores(field) == -1)
  {
    var i := LastUnderscores(key);
    if i >= 0 {
      var op := SplitOperator(key).value.1;
      NamedSuffix(key[i + 2..]);
      assert key == key[..i] + ['_', '_'] + key[i + 2..];
      assert Suffix(op) == ['_', '_'] + key[i + 2..];
    }
  }

  lemma NamedSuffix(name: string)
    requires OperatorNamed(name).Some?
    ensures OperatorNamed(name) != Some(Eq) && Suffix(OperatorNamed(name).value) == ['_', '_'] + name
  {
  }

  lemma PredicateIsPrintable(env: Env, q: ParsedQuery, key: string, value: string)
    requires ValidUtf8(key) && ValidUtf8(value) && !(CONTROL <= key)
    requires PrintableQuery(env, q) && AddPredicate(env, q, key, value).Ok?
    ensures PrintableQuery(env, AddPredicate(env, q, key, value).value)
  {
    OperatorRejoins(key);
    var (field, op) := SplitOperator(key).value;
    assert Printable(env, Predicate(field, op, value));
  }

  lemma OrderKeyIsUtf8(value: string)
    requires ValidUtf8(value) && ParseOrder(value).Ok?
    ensures ValidUtf8(ParseOrder(value).value.key) && ParseOrder(value).value.key != []
  {
    if EndsWith(value, ":desc") {
      assert value == value[..|value| - 5] + [':'] + "desc";
      Utf8Head(value[..|value| - 5], ':', "desc");
    } else if EndsWith(value, ":asc") {
      assert value == value[..|value| - 4] + [':'] + "asc";
      Utf8Head(value[..|value| - 4], ':', "asc");
    }
  }

  lemma ControlIsPrintable(env: Env, q: ParsedQuery, name: string, value: string)
    requires ValidUtf8(value) && PrintableQuery(env, q) && ApplyControl(q, name, value).Ok?
    ensures PrintableQuery(env, ApplyControl(q, name, value).value)
  {
    if name == "path" {
      TrimStartIsUtf8(value);
    } else if name == "order" {
      OrderKeyIsUtf8(value);
    }
  }

  lemma KeyValueIsUtf8(pair: string)
    requires KeyValue(pair).Ok?
    ensures ValidUtf8(KeyValue(pair).value.0) && ValidUtf8(KeyValue(pair).value.1)
  {
  }

  lemma PairIsPrintable(env: Env, q: ParsedQuery, pair: string)
    requires PrintableQuery(env, q) && AddPair(env, q, pair).Ok?
    ensures PrintableQuery(env, AddPair(env, q, pair).value)
  {
    if pair != [] {
      KeyValueIsUtf8(pair);
      var (key, value) := KeyValue(pair).value;
      if CONTROL <= key {
        ControlIsPrintable(env, q, key[|CONTROL|..], value);
      } else {
        PredicateIsPrintable(env, q, key, value);
      }
    }
  }

  lemma {:induction false} PairsArePrintable(env: Env, q: ParsedQuery, pairs: seq<string>)
    requires PrintableQuery(env, q) && AddPairs(env, q, pairs).Ok?
    ensures PrintableQuery(env, AddPairs(env, q, pairs).value)
    decreases |pairs|
  {
    if pairs != [] {
      PairIsPrintable(env, q, pairs[0]);
      PairsArePrintable(env, AddPair(env, q, pairs[0]).value, pairs[1..]);
    }
  }

  /** The queries that some query string stands for are exactly the printable
      ones, and for each of them printing gives such a string. */
  lemma ParsesExactly(env: Env, q: ParsedQuery)
    ensures (exists raw :: Parsed(env, raw) == Ok(q)) <==> PrintableQuery(env, q)
  {
    if raw :| Parsed(env, raw) == Ok(q) {
      PairsArePrintable(env, NEW, Split(raw, '&'));
    }
    if PrintableQuery(env, q) {
      ParseUndoesPrint(env, q);
    }
  }
}
