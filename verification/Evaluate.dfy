/** Evaluating a query against the store. */
module Evaluate {
  import opened Text
  import opened Ordered
  import opened Notes
  import opened Store
  import opened Encoding
  import opened Query
  import opened Values

  // ---- Predicates -------------------------------------------------------------------

  /** Follow a dotted key into nested mappings. */
  function LookupParts(fm: Frontmatter, parts: seq<string>): Option<Value>
    requires parts != []
    decreases |parts|
  {
    if parts[0] !in fm then None
    else if |parts| == 1 then Some(fm[parts[0]])
    else if fm[parts[0]].Mapping? then LookupParts(fm[parts[0]].fields, parts[1..])
    else None
  }

  function LookupDotted(fm: Frontmatter, key: string): Option<Value> {
    LookupParts(fm, Split(key, '.'))
  }

  predicate MatchesScalar(v: Value, needle: string) {
    match v
    case Null => needle == "null"
    case Bool(b) => needle == if b then "true" else "false"
    case Int(i) => needle == IntText(i)
    case Float(_, text) => needle == text
    case Str(s) => s == needle
    case DateOnly(d) => DateText(d) == needle
    case DateTime(at) => InstantText(at) == needle
    case Sequence(_) => false
    case Mapping(_) => false
  }

  predicate MatchesEq(v: Value, needle: string) {
    if v.Sequence? then exists item <- v.items :: MatchesScalar(item, needle)
    else MatchesScalar(v, needle)
  }

  predicate Satisfies(c: Ordering, op: Operator) {
    match op
    case Gt => c.Greater?
    case Gte => !c.Less?
    case Lt => c.Less?
    case Lte => !c.Greater?
    case _ => false
  }

  predicate OrderedCompare(env: Env, v: Value, needle: string, op: Operator) {
    if TryDate(v).Some? && env.parseDate(needle).Some? then
      Satisfies(CompareDate(TryDate(v).value, env.parseDate(needle).value), op)
    else if TryInstant(v).Some? && env.parseInstant(needle).Some? then
      Satisfies(CompareInstant(TryInstant(v).value, env.parseInstant(needle).value), op)
    else if TryInt(v).Some? && ParseI64(needle).Some? then
      Satisfies(CompareInt(TryInt(v).value, ParseI64(needle).value), op)
    else if TryFloat(v).Some? && env.parseFloat(needle).Some? then
      Satisfies(match PartialCmp(TryFloat(v).value, env.parseFloat(needle).value)
                case Some(o) => o
                case None => Equal, op)
    else v.Str? && Satisfies(Compare(v.s, needle), op)
  }

  predicate Blank(c: char) {
    c == ' ' || '\t' as int <= c as int <= '\r' as int
  }

  function TrimLeft(s: string): string {
    if s != [] && Blank(s[0]) then TrimLeft(s[1..]) else s
  }

  function TrimRight(s: string): string {
    if s != [] && Blank(s[|s| - 1]) then TrimRight(s[..|s| - 1]) else s
  }

  function CommaList(s: string): seq<string> {
    var parts := Split(s, ',');
    seq(|parts|, i requires 0 <= i < |parts| => TrimRight(TrimLeft(parts[i])))
  }

  predicate PredicateMatch(env: Env, p: Predicate, fm: Frontmatter) {
    var target := LookupDotted(fm, p.field);
    match p.op
    case Exists => target.Some? == (p.value == "true")
    case Eq => target.Some? && MatchesEq(target.value, p.value)
    case Not => target.None? || !MatchesEq(target.value, p.value)
    case In => target.Some? && exists n <- CommaList(p.value) :: MatchesEq(target.value, n)
    case All =>
      && target.Some? && target.value.Sequence?
      && forall n <- CommaList(p.value) :: exists item <- target.value.items :: MatchesScalar(item, n)
    case Regex =>
      && target.Some? && target.value.Str?
      && env.regexError(p.value).None? && env.regexMatch(p.value, target.value.s)
    case Prefix => target.Some? && target.value.Str? && p.value <= target.value.s
    case _ => target.Some? && OrderedCompare(env, target.value, p.value, p.op)
  }

  predicate PredicatesMatch(env: Env, ps: seq<Predicate>, fm: Frontmatter) {
    forall p <- ps :: PredicateMatch(env, p, fm)
  }

  predicate PathMatches(path: string, prefix: string, recursive: bool) {
    if prefix == [] then recursive || '/' !in path
    else if path == prefix then true
    else if prefix + "/" <= path then recursive || '/' !in path[|prefix| + 1..]
    else false
  }

  // ---- The match set -------------------------------------------------------------------

  function PrefixOf(q: ParsedQuery): string {
    if q.pathPrefix.Some? then q.pathPrefix.value else []
  }

  predicate Matches(env: Env, q: ParsedQuery, path: string, note: Note) {
    PathMatches(path, PrefixOf(q), q.recursive) && PredicatesMatch(env, q.predicates, note.frontmatter)
  }

  /** The matching ones among the given keys, in the given order. */
  function Select(env: Env, q: ParsedQuery, m: NoteMap, keys: seq<string>): seq<string>
    requires forall k <- keys :: k in m
  {
    if keys == [] then []
    else
      var last := keys[|keys| - 1];
      Select(env, q, m, keys[..|keys| - 1]) + if Matches(env, q, last, m[last]) then [last] else []
  }

  function Matching(env: Env, q: ParsedQuery, m: NoteMap): seq<string> {
    Select(env, q, m, Ascending(m.Keys))
  }

  lemma {:induction false} SelectExact(env: Env, q: ParsedQuery, m: NoteMap, keys: seq<string>)
    requires (forall k <- keys :: k in m) && StrictlyAscending(keys)
    ensures forall k :: k in Select(env, q, m, keys) <==> k in keys && Matches(env, q, k, m[k])
    ensures StrictlyAscending(Select(env, q, m, keys))
    decreases |keys|
  {
    if keys != [] {
      var init, last := keys[..|keys| - 1], keys[|keys| - 1];
      SelectExact(env, q, m, init);
      EarlierIsLess(keys, |keys| - 1);
      assert keys == init + [last];
      Append(Select(env, q, m, init), last);
    }
  }

  /** The matching paths, each once, in ascending order. */
  lemma MatchingExact(env: Env, q: ParsedQuery, m: NoteMap)
    ensures forall k :: k in Matching(env, q, m) <==> k in m && Matches(env, q, k, m[k])
    ensures StrictlyAscending(Matching(env, q, m))
  {
    AscendingSorted(m.Keys);
    SelectExact(env, q, m, Ascending(m.Keys));
  }

  // ---- Executing ---------------------------------------------------------------------------

  datatype ResultEntry = ResultEntry(path: string, frontmatter: Frontmatter, lastModified: int, etag: string, size: nat)

  datatype QueryResponse = QueryResponse(results: seq<ResultEntry>, total: nat, truncated: bool)

  function EntryOf(n: Note): ResultEntry {
    ResultEntry(n.path, n.frontmatter, n.lastModified, n.etag, n.size)
  }

  function EntriesOf(m: NoteMap, keys: seq<string>): seq<ResultEntry>
    requires forall k <- keys :: k in m
  {
    seq(|keys|, i requires 0 <= i < |keys| => assert keys[i] in keys; EntryOf(m[keys[i]]))
  }

  function Take<A>(xs: seq<A>, limit: Option<nat>): seq<A> {
    if limit.Some? && limit.value < |xs| then xs[..limit.value] else xs
  }

  lemma SelectStep(env: Env, q: ParsedQuery, m: NoteMap, keys: seq<string>, i: nat)
    requires (forall k <- keys :: k in m) && i < |keys|
    ensures Select(env, q, m, keys[..i + 1])
         == Select(env, q, m, keys[..i]) + if Matches(env, q, keys[i], m[keys[i]]) then [keys[i]] else []
  {
    assert keys[..i + 1][..i] == keys[..i];
  }

  lemma EntriesAppend(m: NoteMap, keys: seq<string>, k: string)
    requires (forall j <- keys :: j in m) && k in m
    ensures EntriesOf(m, keys + [k]) == EntriesOf(m, keys) + [EntryOf(m[k])]
  {
  }

  method CollectMatches(env: Env, notes: NoteMap, q: ParsedQuery) returns (matches: seq<ResultEntry>)
    ensures forall k <- Matching(env, q, notes) :: k in notes
    ensures matches == EntriesOf(notes, Matching(env, q, notes))
  {
    var keys := Ascending(notes.Keys);
    MatchingExact(env, q, notes);
    matches := [];
    ghost var chosen := [];
    for i := 0 to |keys|
      invariant chosen == Select(env, q, notes, keys[..i]) && forall k <- chosen :: k in notes
      invariant matches == EntriesOf(notes, chosen)
    {
      var path := keys[i];
      SelectStep(env, q, notes, keys, i);
      if !PathMatches(path, PrefixOf(q), q.recursive) { continue; }
      if !PredicatesMatch(env, q.predicates, notes[path].frontmatter) { continue; }
      EntriesAppend(notes, chosen, path);
      matches := matches + [EntryOf(notes[path])];
      chosen := chosen + [path];
    }
    assert keys[..|keys|] == keys;
  }

  method Execute(env: Env, store: NoteStore, q: ParsedQuery) returns (r: QueryResponse)
    ensures var keys := Matching(env, q, store.inner);
            && (forall k <- keys :: k in store.inner)
            && r.results == Take(EntriesOf(store.inner, keys), q.limit)
            && r.total == |keys|
            && (r.truncated <==> q.limit.Some? && r.total > q.limit.value)
  {
    var matches := CollectMatches(env, store.inner, q);
    var total := |matches|;
    if q.limit.Some? && |matches| > q.limit.value {
      r := QueryResponse(matches[..q.limit.value], total, true);
    } else {
      r := QueryResponse(matches, total, false);
    }
  }

  // ---- Concatenated queries ------------------------------------------------------------------

  predicate ControlFree(q: ParsedQuery) {
    q == NEW.(predicates := q.predicates)
  }

  /** The match set of `a&b` is the intersection of the two match sets, for
      queries that set no control. */
  lemma ConcatIntersects(env: Env, a: string, b: string, m: NoteMap, path: string)
    requires Parsed(env, a).Ok? && ControlFree(Parsed(env, a).value)
    requires Parsed(env, b).Ok? && ControlFree(Parsed(env, b).value)
    ensures Parsed(env, a + "&" + b).Ok?
    ensures path in Matching(env, Parsed(env, a + "&" + b).value, m)
       <==> path in Matching(env, Parsed(env, a).value, m) && path in Matching(env, Parsed(env, b).value, m)
  {
    ParseConcat(env, a, b);
    AddPairsOverlay(env, NEW, Split(b, '&'));
    MatchingExact(env, Parsed(env, a + "&" + b).value, m);
    MatchingExact(env, Parsed(env, a).value, m);
    MatchingExact(env, Parsed(env, b).value, m);
  }
}
