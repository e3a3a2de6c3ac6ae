/** Markdown-merge mode: guard, order, limit, assemble. */
module Merge {
  import opened Text
  import opened Ordered
  import opened Notes
  import opened Store
  import opened Query
  import opened Values
  import opened Evaluate
  import opened Sorting

  datatype Fragment = Fragment(path: string, body: string, orderValue: Option<Value>, kindValue: Option<Value>)

  datatype MergeError = KindGuard(text: string)

  function FragmentOf(q: ParsedQuery, n: Note): Fragment {
    Fragment(n.path, n.body,
      if q.order.Some? then LookupDotted(n.frontmatter, q.order.value.key) else None,
      if q.kindKey.Some? then LookupDotted(n.frontmatter, q.kindKey.value) else None)
  }

  function FragmentsOf(q: ParsedQuery, m: NoteMap, keys: seq<string>): seq<Fragment>
    requires forall k <- keys :: k in m
  {
    seq(|keys|, i requires 0 <= i < |keys| => assert keys[i] in keys; FragmentOf(q, m[keys[i]]))
  }

  // ---- The kind guard ------------------------------------------------------------------

  function Missing(frags: seq<Fragment>): seq<string> {
    if frags == [] then []
    else
      var last := frags[|frags| - 1];
      Missing(frags[..|frags| - 1]) + if last.kindValue.None? then [last.path] else []
  }

  /** The paths by canonical kind. */
  function Groups(env: Env, frags: seq<Fragment>): map<string, seq<string>> {
    if frags == [] then map[]
    else
      var groups, last := Groups(env, frags[..|frags| - 1]), frags[|frags| - 1];
      if last.kindValue.None? then groups else AddTo(groups, CanonicalString(env, last.kindValue.value), last.path)
  }

  function AddTo(groups: map<string, seq<string>>, kind: string, path: string): map<string, seq<string>> {
    groups[kind := (if kind in groups then groups[kind] else []) + [path]]
  }

  function JoinText(parts: seq<string>, sep: string): string {
    if parts == [] then []
    else if |parts| == 1 then parts[0]
    else parts[0] + sep + JoinText(parts[1..], sep)
  }

  function GroupLines(groups: map<string, seq<string>>, kinds: seq<string>): string
    requires forall k <- kinds :: k in groups
  {
    if kinds == [] then []
    else "  " + kinds[0] + ": " + JoinText(groups[kinds[0]], ", ") + "\n" + GroupLines(groups, kinds[1..])
  }

  function KindErrorText(key: string, missing: seq<string>, groups: map<string, seq<string>>): string {
    "__anw-kind=" + key + ": merge requires every matched note to share one value for `" + key + "`\n"
    + (if |groups| > 1 then "distinct values found:\n" + GroupLines(groups, Ascending(groups.Keys)) else [])
    + (if missing != [] then "notes missing the key: " + JoinText(missing, ", ") + "\n" else [])
  }

  /** Every fragment has the key, and all the values print alike. */
  ghost predicate OneKind(env: Env, frags: seq<Fragment>) {
    && (forall f <- frags :: f.kindValue.Some?)
    && (forall f, g | f in frags && g in frags && f.kindValue.Some? && g.kindValue.Some? ::
          CanonicalString(env, f.kindValue.value) == CanonicalString(env, g.kindValue.value))
  }

  lemma {:induction false} MissingExact(frags: seq<Fragment>)
    ensures Missing(frags) == [] <==> forall f <- frags :: f.kindValue.Some?
  {
    if frags != [] {
      MissingExact(frags[..|frags| - 1]);
      assert frags == frags[..|frags| - 1] + [frags[|frags| - 1]];
    }
  }

  lemma {:induction false} GroupsExact(env: Env, frags: seq<Fragment>)
    ensures forall c :: c in Groups(env, frags) <==>
              exists f <- frags :: f.kindValue.Some? && CanonicalString(env, f.kindValue.value) == c
  {
    if frags != [] {
      GroupsExact(env, frags[..|frags| - 1]);
      assert frags == frags[..|frags| - 1] + [frags[|frags| - 1]];
    }
  }

  /** What the guard tests is that there is one kind. */
  lemma GuardExact(env: Env, frags: seq<Fragment>)
    ensures Missing(frags) == [] && |Groups(env, frags)| <= 1 <==> OneKind(env, frags)
  {
    MissingExact(frags);
    GroupsExact(env, frags);
    AtMostOneKey(Groups(env, frags));
    if Missing(frags) == [] && |Groups(env, frags)| <= 1 {
      forall f, g | f in frags && g in frags
        ensures CanonicalString(env, f.kindValue.value) == CanonicalString(env, g.kindValue.value)
      {
        assert CanonicalString(env, f.kindValue.value) in Groups(env, frags);
        assert CanonicalString(env, g.kindValue.value) in Groups(env, frags);
      }
    }
  }

  method CheckKind(env: Env, key: string, frags: seq<Fragment>) returns (r: Option<string>)
    ensures r.None? <==> OneKind(env, frags)
    ensures r.Some? ==> r.value == KindErrorText(key, Missing(frags), Groups(env, frags))
  {
    var missing: seq<string> := [];
    var byValue: map<string, seq<string>> := map[];
    for i := 0 to |frags|
      invariant missing == Missing(frags[..i]) && byValue == Groups(env, frags[..i])
    {
      assert frags[..i + 1][..i] == frags[..i];
      match frags[i].kindValue {
        case None => missing := missing + [frags[i].path];
        case Some(v) => byValue := AddTo(byValue, CanonicalString(env, v), frags[i].path);
      }
    }
    assert frags[..|frags|] == frags;
    GuardExact(env, frags);
    r := if missing != [] || |byValue| > 1 then Some(KindErrorText(key, missing, byValue)) else None;
  }

  // ---- Order ------------------------------------------------------------------------------

  /** Present values before missing ones in both directions. */
  function OrderCmp(env: Env, a: Option<Value>, b: Option<Value>, desc: bool): Ordering {
    if a.Some? && b.Some? then
      var base := CompareValues(env, a.value, b.value);
      if desc then base.Reverse() else base
    else if a.Some? then Less
    else if b.Some? then Greater
    else Equal
  }

  function FragmentCmp(env: Env, order: Option<OrderSpec>): (Fragment, Fragment) -> Ordering {
    (a: Fragment, b: Fragment) =>
      if order.Some? then OrderCmp(env, a.orderValue, b.orderValue, order.value.desc).Then(Compare(a.path, b.path))
      else Compare(a.path, b.path)
  }

  function Assemble(frags: seq<Fragment>): string {
    JoinText(seq(|frags|, i requires 0 <= i < |frags| =>
      "<!-- source: " + frags[i].path + " -->\n" + frags[i].body), "\n\n")
  }

  // ---- The whole -----------------------------------------------------------------------------

  ghost function MatchedFragments(env: Env, q: ParsedQuery, m: NoteMap): seq<Fragment> {
    MatchingExact(env, q, m);
    FragmentsOf(q, m, Matching(env, q, m))
  }

  /** The fragments of the merged document, in order. */
  ghost function MergedFragments(env: Env, q: ParsedQuery, m: NoteMap): seq<Fragment> {
    Take(Sort(FragmentCmp(env, q.order), MatchedFragments(env, q, m)), q.limit)
  }

  ghost function Merged(env: Env, q: ParsedQuery, m: NoteMap): Result<string, MergeError> {
    var frags := MatchedFragments(env, q, m);
    if q.kindKey.Some? && !OneKind(env, frags)
    then Err(KindGuard(KindErrorText(q.kindKey.value, Missing(frags), Groups(env, frags))))
    else Ok(Assemble(MergedFragments(env, q, m)))
  }

  lemma FragmentsAppend(q: ParsedQuery, m: NoteMap, keys: seq<string>, k: string)
    requires (forall j <- keys :: j in m) && k in m
    ensures FragmentsOf(q, m, keys + [k]) == FragmentsOf(q, m, keys) + [FragmentOf(q, m[k])]
  {
  }

  method CollectFragments(env: Env, notes: NoteMap, q: ParsedQuery) returns (frags: seq<Fragment>)
    ensures frags == MatchedFragments(env, q, notes)
  {
    var keys := Ascending(notes.Keys);
    MatchingExact(env, q, notes);
    frags := [];
    ghost var chosen := [];
    for i := 0 to |keys|
      invariant chosen == Select(env, q, notes, keys[..i]) && forall k <- chosen :: k in notes
      invariant frags == FragmentsOf(q, notes, chosen)
    {
      var path := keys[i];
      SelectStep(env, q, notes, keys, i);
      if !PathMatches(path, PrefixOf(q), q.recursive) { continue; }
      if !PredicatesMatch(env, q.predicates, notes[path].frontmatter) { continue; }
      FragmentsAppend(q, notes, chosen, path);
      frags := frags + [FragmentOf(q, notes[path])];
      chosen := chosen + [path];
    }
    assert keys[..|keys|] == keys;
  }

  method ExecuteMerge(env: Env, store: NoteStore, q: ParsedQuery) returns (r: Result<string, MergeError>)
    ensures r == Merged(env, q, store.inner)
  {
    var frags := CollectFragments(env, store.inner, q);
    if q.kindKey.Some? {
      var error := CheckKind(env, q.kindKey.value, frags);
      if error.Some? { return Err(KindGuard(error.value)); }
    }
    frags := Sort(FragmentCmp(env, q.order), frags);
    if q.limit.Some? && q.limit.value < |frags| {
      frags := frags[..q.limit.value];
    }
    r := Ok(Assemble(frags));
  }

  // ---- The comparator orders the fragments -----------------------------------------------------

  /** The order values the matched notes carry. */
  ghost function OrderValues(frags: multiset<Fragment>): set<Value> {
    set f | f in frags && f.orderValue.Some? :: f.orderValue.value
  }

  ghost predicate DistinctPaths(frags: multiset<Fragment>) {
    forall f, g | f in frags && g in frags && f.path == g.path :: f == g
  }

  lemma FragmentCmpReverse(env: Env, order: Option<OrderSpec>, a: Fragment, b: Fragment, items: multiset<Fragment>)
    requires order.Some? ==> Lawful(env, OrderValues(items))
    requires a in items && b in items
    ensures FragmentCmp(env, order)(b, a) == FragmentCmp(env, order)(a, b).Reverse()
  {
    CompareReverse(a.path, b.path);
    if order.Some? && a.orderValue.Some? && b.orderValue.Some? {
      assert a.orderValue.value in OrderValues(items) && b.orderValue.value in OrderValues(items);
    }
  }

  lemma OrderCmpTransitive(env: Env, desc: bool, vs: set<Value>, a: Option<Value>, b: Option<Value>, c: Option<Value>)
    requires Lawful(env, vs)
    requires (a.Some? ==> a.value in vs) && (b.Some? ==> b.value in vs) && (c.Some? ==> c.value in vs)
    requires !OrderCmp(env, a, b, desc).Greater? && !OrderCmp(env, b, c, desc).Greater?
    ensures !OrderCmp(env, a, c, desc).Greater?
    ensures OrderCmp(env, a, c, desc).Equal? ==> OrderCmp(env, a, b, desc).Equal? && OrderCmp(env, b, c, desc).Equal?
  {
    if a.Some? && b.Some? && c.Some? {
      var x, y, z := a.value, b.value, c.value;
      assert CompareValues(env, y, x) == CompareValues(env, x, y).Reverse();
      assert CompareValues(env, z, y) == CompareValues(env, y, z).Reverse();
      assert CompareValues(env, z, x) == CompareValues(env, x, z).Reverse();
      if desc {
        assert AtMostValue(env, z, y) && AtMostValue(env, y, x);
        assert AtMostValue(env, z, x);
        if CompareValues(env, x, z).Equal? {
          assert AtMostValue(env, x, z);
          assert AtMostValue(env, x, y) && AtMostValue(env, y, z);
        }
      } else {
        assert AtMostValue(env, x, y) && AtMostValue(env, y, z);
        assert AtMostValue(env, x, z);
        if CompareValues(env, x, z).Equal? {
          assert AtMostValue(env, z, x);
          assert AtMostValue(env, z, y) && AtMostValue(env, y, x);
        }
      }
    }
  }

  lemma FragmentCmpTransitive(env: Env, order: Option<OrderSpec>, a: Fragment, b: Fragment, c: Fragment,
    items: multiset<Fragment>)
    requires order.Some? ==> Lawful(env, OrderValues(items))
    requires a in items && b in items && c in items
    requires !FragmentCmp(env, order)(a, b).Greater? && !FragmentCmp(env, order)(b, c).Greater?
    ensures !FragmentCmp(env, order)(a, c).Greater?
  {
    if AtMost(a.path, b.path) && AtMost(b.path, c.path) {
      AtMostTransitive(a.path, b.path, c.path);
    }
    if order.Some? {
      var vs := OrderValues(items);
      assert a.orderValue.Some? ==> a.orderValue.value in vs;
      assert b.orderValue.Some? ==> b.orderValue.value in vs;
      assert c.orderValue.Some? ==> c.orderValue.value in vs;
      OrderCmpTransitive(env, order.value.desc, vs, a.orderValue, b.orderValue, c.orderValue);
    }
  }

  /** Where comparing the order values is lawful, and the paths are distinct,
      the merge comparator is a strict total order in both directions. */
  lemma FragmentsTotallyOrdered(env: Env, order: Option<OrderSpec>, items: multiset<Fragment>)
    requires order.Some? ==> Lawful(env, OrderValues(items))
    requires DistinctPaths(items)
    ensures Preorder(FragmentCmp(env, order), items) && Strict(FragmentCmp(env, order), items)
  {
    var cmp := FragmentCmp(env, order);
    forall a, b | a in items && b in items ensures cmp(b, a) == cmp(a, b).Reverse() {
      FragmentCmpReverse(env, order, a, b, items);
    }
    forall a, b, c | a in items && b in items && c in items && !cmp(a, b).Greater? && !cmp(b, c).Greater?
      ensures !cmp(a, c).Greater?
    {
      FragmentCmpTransitive(env, order, a, b, c, items);
    }
    forall a, b | a in items && b in items && cmp(a, b).Equal? ensures a == b {
      CompareEqual(a.path, b.path);
    }
  }

  /** The merge comparator for this key and direction is a strict total order
      on all fragments with distinct paths and order values among `vs`. */
  ghost predicate AlwaysOrdered(env: Env, spec: OrderSpec, vs: set<Value>) {
    forall items: multiset<Fragment> | DistinctPaths(items) && OrderValues(items) <= vs ::
      Preorder(FragmentCmp(env, Some(spec)), items) && Strict(FragmentCmp(env, Some(spec)), items)
  }

  /** Whichever the direction, it is one exactly when comparing these values
      is lawful. */
  lemma OrderedExactly(env: Env, spec: OrderSpec, vs: set<Value>)
    ensures AlwaysOrdered(env, spec, vs) <==> Lawful(env, vs)
  {
    if Lawful(env, vs) {
      forall items: multiset<Fragment> | DistinctPaths(items) && OrderValues(items) <= vs
        ensures Preorder(FragmentCmp(env, Some(spec)), items) && Strict(FragmentCmp(env, Some(spec)), items)
      {
        FragmentsTotallyOrdered(env, Some(spec), items);
      }
    }
    if AlwaysOrdered(env, spec, vs) {
      forall a, b ensures CompareValues(env, b, a) == CompareValues(env, a, b).Reverse() {
        ValuesReverse(env, a, b);
      }
      forall a, b, c | a in vs && b in vs && c in vs && AtMostValue(env, a, b) && AtMostValue(env, b, c)
        ensures AtMostValue(env, a, c)
      {
        ThreePaths();
        if spec.desc {
          ThreeFragments(env, spec, vs, "a", "b", "c", c, b, a);
        } else {
          ThreeFragments(env, spec, vs, "a", "b", "c", a, b, c);
        }
        ValuesReverse(env, a, c);
      }
    }
  }

  lemma ThreePaths()
    ensures Compare("a", "b").Less? && Compare("b", "c").Less? && Compare("a", "c").Less?
  {
  }

  function Carrying(path: string, v: Value): Fragment {
    Fragment(path, "", Some(v), None)
  }

  /** Three fragments whose paths ascend with the values. */
  lemma ThreeFragments(env: Env, spec: OrderSpec, vs: set<Value>, p: string, q: string, r: string,
    x: Value, y: Value, z: Value)
    requires AlwaysOrdered(env, spec, vs) && x in vs && y in vs && z in vs
    requires Compare(p, q).Less? && Compare(q, r).Less? && Compare(p, r).Less?
    requires if spec.desc then AtMostValue(env, y, x) && AtMostValue(env, z, y)
             else AtMostValue(env, x, y) && AtMostValue(env, y, z)
    ensures if spec.desc then AtMostValue(env, z, x) else AtMostValue(env, x, z)
  {
    var f, g, h := Carrying(p, x), Carrying(q, y), Carrying(r, z);
    ThreeApart(vs, f, g, h);
    PathsBreakTies(env, spec, p, q, x, y);
    PathsBreakTies(env, spec, q, r, y, z);
    PathsBreakTies(env, spec, p, r, x, z);
    PreorderTransitive(FragmentCmp(env, Some(spec)), multiset{f, g, h}, f, g, h);
  }

  lemma ThreeApart(vs: set<Value>, f: Fragment, g: Fragment, h: Fragment)
    requires Compare(f.path, g.path).Less? && Compare(g.path, h.path).Less? && Compare(f.path, h.path).Less?
    requires forall e <- [f, g, h] :: e.orderValue.Some? && e.orderValue.value in vs
    ensures DistinctPaths(multiset{f, g, h}) && OrderValues(multiset{f, g, h}) <= vs
  {
    CompareEqual(f.path, g.path);
    CompareEqual(g.path, h.path);
    CompareEqual(f.path, h.path);
    assert f in [f, g, h] && g in [f, g, h] && h in [f, g, h];
  }

  lemma PathsBreakTies(env: Env, spec: OrderSpec, p: string, q: string, x: Value, y: Value)
    requires Compare(p, q).Less?
    ensures !FragmentCmp(env, Some(spec))(Carrying(p, x), Carrying(q, y)).Greater?
       <==> if spec.desc then AtMostValue(env, y, x) else AtMostValue(env, x, y)
  {
    ValuesReverse(env, x, y);
  }

  lemma MatchedPaths(env: Env, q: ParsedQuery, m: NoteMap)
    requires Keyed(m)
    ensures var frags := MatchedFragments(env, q, m);
            && |frags| == |Matching(env, q, m)|
            && (forall i | 0 <= i < |frags| :: frags[i].path == Matching(env, q, m)[i])
  {
    var keys := Matching(env, q, m);
    MatchingExact(env, q, m);
    forall i | 0 <= i < |keys| ensures MatchedFragments(env, q, m)[i].path == keys[i] {
      assert keys[i] in keys;
    }
  }

  lemma AscendingDiffer(keys: seq<string>)
    requires StrictlyAscending(keys)
    ensures forall i, j | 0 <= i < j < |keys| :: keys[i] != keys[j]
  {
    forall i, j | 0 <= i < j < |keys| ensures keys[i] != keys[j] {
      CompareEqual(keys[i], keys[j]);
    }
  }

  lemma DistinctByPath(frags: seq<Fragment>)
    requires forall i, j | 0 <= i < j < |frags| :: frags[i].path != frags[j].path
    ensures DistinctPaths(multiset(frags)) && forall f | f in frags :: multiset(frags)[f] == 1
  {
    forall i, j | 0 <= i < j < |frags| ensures frags[i] != frags[j] {}
    OnceEach(frags);
  }

  lemma MatchedDistinct(env: Env, q: ParsedQuery, m: NoteMap)
    requires Keyed(m)
    ensures var frags := MatchedFragments(env, q, m);
            DistinctPaths(multiset(frags)) && forall f | f in frags :: multiset(frags)[f] == 1
  {
    MatchingExact(env, q, m);
    AscendingDiffer(Matching(env, q, m));
    MatchedPaths(env, q, m);
    DistinctByPath(MatchedFragments(env, q, m));
  }

  /** When comparing the order values is lawful, any arrangement of the matched
      fragments that is sorted gives the same document: it does not depend on
      the sorting algorithm. */
  lemma DocumentIsUnique(env: Env, q: ParsedQuery, m: NoteMap, sorted: seq<Fragment>)
    requires Keyed(m)
    requires q.order.Some? ==> Lawful(env, OrderValues(multiset(MatchedFragments(env, q, m))))
    requires multiset(sorted) == multiset(MatchedFragments(env, q, m))
    requires Sorted(FragmentCmp(env, q.order), sorted)
    ensures Take(sorted, q.limit) == MergedFragments(env, q, m)
  {
    var frags, cmp := MatchedFragments(env, q, m), FragmentCmp(env, q.order);
    SortedFragments(env, q, m);
    SortedUnique(cmp, sorted, Sort(cmp, frags), multiset(frags));
  }

  /** The limit keeps the least fragments: each kept one is strictly before
      each dropped one, and nothing else is lost. */
  lemma LimitKeepsTheLeast(env: Env, q: ParsedQuery, m: NoteMap)
    requires Keyed(m)
    requires q.order.Some? ==> Lawful(env, OrderValues(multiset(MatchedFragments(env, q, m))))
    ensures var frags, kept := multiset(MatchedFragments(env, q, m)), multiset(MergedFragments(env, q, m));
            && kept <= frags
            && |kept| == (if q.limit.Some? && q.limit.value < |frags| then q.limit.value else |frags|)
            && forall f, g | f in kept && g in frags - kept :: FragmentCmp(env, q.order)(f, g).Less?
  {
    var frags, cmp := MatchedFragments(env, q, m), FragmentCmp(env, q.order);
    SortedFragments(env, q, m);
    MatchedDistinct(env, q, m);
    KeepLeast(cmp, frags, q.limit);
  }

  lemma KeepLeast(cmp: (Fragment, Fragment) -> Ordering, frags: seq<Fragment>, limit: Option<nat>)
    requires Preorder(cmp, multiset(frags)) && Strict(cmp, multiset(frags)) && Sorted(cmp, Sort(cmp, frags))
    requires forall f | f in frags :: multiset(frags)[f] == 1
    ensures var items, kept := multiset(frags), multiset(Take(Sort(cmp, frags), limit));
            && kept <= items
            && |kept| == (if limit.Some? && limit.value < |items| then limit.value else |items|)
            && forall f, g | f in kept && g in items - kept :: cmp(f, g).Less?
  {
    var all := Sort(cmp, frags);
    SortPermutes(cmp, frags);
    assert |multiset(all)| == |all|;
    PrefixIsLeast(cmp, all, if limit.Some? && limit.value < |all| then limit.value else |all|, multiset(frags));
    assert all[..|all|] == all;
  }

  lemma SortedFragments(env: Env, q: ParsedQuery, m: NoteMap)
    requires Keyed(m)
    requires q.order.Some? ==> Lawful(env, OrderValues(multiset(MatchedFragments(env, q, m))))
    ensures var frags, cmp := MatchedFragments(env, q, m), FragmentCmp(env, q.order);
            && Preorder(cmp, multiset(frags)) && Strict(cmp, multiset(frags))
            && multiset(Sort(cmp, frags)) == multiset(frags) && Sorted(cmp, Sort(cmp, frags))
  {
    var frags, cmp := MatchedFragments(env, q, m), FragmentCmp(env, q.order);
    MatchedDistinct(env, q, m);
    FragmentsTotallyOrdered(env, q.order, multiset(frags));
    SortPermutes(cmp, frags);
    SortSorts(cmp, frags, multiset(frags));
  }

  /** Where it is not lawful there may be no sorted arrangement at all: these
      three order values admit none, whatever the other fragments are. */
  lemma NothingIsSorted(env: Env, key: string, f: Fragment, g: Fragment, h: Fragment, arrangement: seq<Fragment>)
    requires f in arrangement && g in arrangement && h in arrangement
    requires f.orderValue == Some(Int(9)) && g.orderValue == Some(Int(10)) && h.orderValue == Some(Str("1z"))
    ensures !Sorted(FragmentCmp(env, Some(OrderSpec(key, false))), arrangement)
    ensures !Sorted(FragmentCmp(env, Some(OrderSpec(key, true))), arrangement)
  {
    NumbersAndTextsOrder(env);
    var i :| 0 <= i < |arrangement| && arrangement[i] == f;
    var j :| 0 <= j < |arrangement| && arrangement[j] == g;
    var k :| 0 <= k < |arrangement| && arrangement[k] == h;
  }

  // ---- The guard ------------------------------------------------------------------------------------

  /** Every matched note has the kind key and all its values print alike. */
  ghost predicate Homogeneous(env: Env, keys: seq<string>, m: NoteMap, key: string) {
    && (forall k <- keys :: k in m && LookupDotted(m[k].frontmatter, key).Some?)
    && (forall j, k | j in keys && k in keys && j in m && k in m
          && LookupDotted(m[j].frontmatter, key).Some? && LookupDotted(m[k].frontmatter, key).Some? ::
          CanonicalString(env, LookupDotted(m[j].frontmatter, key).value)
          == CanonicalString(env, LookupDotted(m[k].frontmatter, key).value))
  }

  lemma FragmentOfKey(env: Env, q: ParsedQuery, m: NoteMap, k: string)
    requires k in Matching(env, q, m)
    ensures k in m && FragmentOf(q, m[k]) in MatchedFragments(env, q, m)
  {
    MatchingExact(env, q, m);
    var keys := Matching(env, q, m);
    var i :| 0 <= i < |keys| && keys[i] == k;
    assert MatchedFragments(env, q, m)[i] == FragmentOf(q, m[k]);
  }

  lemma KeyOfFragment(env: Env, q: ParsedQuery, m: NoteMap, f: Fragment) returns (k: string)
    requires f in MatchedFragments(env, q, m)
    ensures k in Matching(env, q, m) && k in m && f == FragmentOf(q, m[k])
  {
    MatchingExact(env, q, m);
    var frags := MatchedFragments(env, q, m);
    var i :| 0 <= i < |frags| && frags[i] == f;
    k := Matching(env, q, m)[i];
    assert k in Matching(env, q, m);
  }

  lemma HomogeneousIsOneKind(env: Env, q: ParsedQuery, m: NoteMap, key: string)
    requires q.kindKey == Some(key) && Homogeneous(env, Matching(env, q, m), m, key)
    ensures OneKind(env, MatchedFragments(env, q, m))
  {
    var frags := MatchedFragments(env, q, m);
    forall f | f in frags ensures f.kindValue.Some? {
      var k := KeyOfFragment(env, q, m, f);
    }
    forall f, g | f in frags && g in frags
      ensures CanonicalString(env, f.kindValue.value) == CanonicalString(env, g.kindValue.value)
    {
      var j := KeyOfFragment(env, q, m, f);
      var k := KeyOfFragment(env, q, m, g);
    }
  }

  lemma OneKindIsHomogeneous(env: Env, q: ParsedQuery, m: NoteMap, key: string)
    requires q.kindKey == Some(key) && OneKind(env, MatchedFragments(env, q, m))
    ensures Homogeneous(env, Matching(env, q, m), m, key)
  {
    forall k | k in Matching(env, q, m) ensures k in m && LookupDotted(m[k].frontmatter, key).Some? {
      FragmentOfKey(env, q, m, k);
    }
    forall j, k | j in Matching(env, q, m) && k in Matching(env, q, m)
      ensures CanonicalString(env, LookupDotted(m[j].frontmatter, key).value)
           == CanonicalString(env, LookupDotted(m[k].frontmatter, key).value)
    {
      FragmentOfKey(env, q, m, j);
      FragmentOfKey(env, q, m, k);
    }
  }

  /** A merge succeeds exactly when there is no kind key or the matched notes
      are homogeneous in it; neither limit nor order has a say. */
  lemma GuardMeaning(env: Env, q: ParsedQuery, m: NoteMap)
    ensures Merged(env, q, m).Ok? <==> q.kindKey.None? || Homogeneous(env, Matching(env, q, m), m, q.kindKey.value)
  {
    if q.kindKey.Some? {
      var key := q.kindKey.value;
      if Homogeneous(env, Matching(env, q, m), m, key) {
        HomogeneousIsOneKind(env, q, m, key);
      }
      if OneKind(env, MatchedFragments(env, q, m)) {
        OneKindIsHomogeneous(env, q, m, key);
      }
    }
  }

  /** The guard looks at the full match set: limit and order do not change it. */
  lemma GuardIgnoresLimitAndOrder(env: Env, q: ParsedQuery, m: NoteMap, limit: Option<nat>, order: Option<OrderSpec>)
    ensures Merged(env, q.(limit := limit, order := order), m).Ok? <==> Merged(env, q, m).Ok?
  {
    var r := q.(limit := limit, order := order);
    SameQuestion(env, q, r, m);
    GuardMeaning(env, q, m);
    GuardMeaning(env, r, m);
  }

  lemma SameQuestion(env: Env, q: ParsedQuery, r: ParsedQuery, m: NoteMap)
    requires q.pathPrefix == r.pathPrefix && q.recursive == r.recursive && q.predicates == r.predicates
    ensures Matching(env, q, m) == Matching(env, r, m)
  {
    SameMatches(env, q, r, m);
  }

  lemma SameMatches(env: Env, q: ParsedQuery, r: ParsedQuery, m: NoteMap)
    requires forall k | k in m :: Matches(env, q, k, m[k]) <==> Matches(env, r, k, m[k])
    ensures Matching(env, q, m) == Matching(env, r, m)
  {
    MatchingExact(env, q, m);
    MatchingExact(env, r, m);
    AscendingUnique(Matching(env, q, m), Matching(env, r, m));
  }

  predicate Scalar(v: Value) {
    !v.Sequence? && !v.Mapping?
  }

  /** Equality in a query is equality of printed texts, on scalars. */
  lemma EqualityIsCanonical(env: Env, v: Value, needle: string)
    requires Scalar(v)
    ensures MatchesEq(v, needle) <==> CanonicalString(env, v) == needle
  {
  }

  /** Once the guard has passed on scalar values that print as `c`, asking for
      `key=c` as well changes nothing. */
  lemma GuardMakesPredicateRedundant(env: Env, q: ParsedQuery, m: NoteMap, c: string)
    requires q.kindKey.Some? && Merged(env, q, m).Ok?
    requires forall k | k in Matching(env, q, m) && k in m :: 
               var v := LookupDotted(m[k].frontmatter, q.kindKey.value);
               v.Some? ==> Scalar(v.value) && CanonicalString(env, v.value) == c
    ensures Merged(env, q.(predicates := q.predicates + [Predicate(q.kindKey.value, Eq, c)]), m) == Merged(env, q, m)
  {
    var p := Predicate(q.kindKey.value, Eq, c);
    var r := q.(predicates := q.predicates + [p]);
    GuardMeaning(env, q, m);
    MatchingExact(env, q, m);
    forall k | k in m ensures Matches(env, q, k, m[k]) <==> Matches(env, r, k, m[k]) {
      if Matches(env, q, k, m[k]) {
        assert k in Matching(env, q, m);
        EqualityIsCanonical(env, LookupDotted(m[k].frontmatter, q.kindKey.value).value, c);
      }
      OneMorePredicate(env, q, p, k, m[k]);
    }
    SameMatches(env, q, r, m);
    SameFragments(env, q, r, m);
  }

  lemma OneMorePredicate(env: Env, q: ParsedQuery, p: Predicate, k: string, n: Note)
    ensures Matches(env, q.(predicates := q.predicates + [p]), k, n)
       <==> Matches(env, q, k, n) && PredicateMatch(env, p, n.frontmatter)
  {
    var all := q.predicates + [p];
    assert forall x <- q.predicates :: x in all;
    assert p in all;
  }

  lemma SameFragmentsOf(q: ParsedQuery, r: ParsedQuery, m: NoteMap, keys: seq<string>)
    requires q.order == r.order && q.kindKey == r.kindKey && forall k <- keys :: k in m
    ensures FragmentsOf(q, m, keys) == FragmentsOf(r, m, keys)
  {
  }

  lemma SameFragments(env: Env, q: ParsedQuery, r: ParsedQuery, m: NoteMap)
    requires r == q.(predicates := r.predicates) && Matching(env, q, m) == Matching(env, r, m)
    ensures Merged(env, r, m) == Merged(env, q, m)
  {
    MatchingExact(env, q, m);
    SameFragmentsOf(q, r, m, Matching(env, q, m));
  }

  // ---- Merge and JSON agree -----------------------------------------------------------------------------

  /** Without an order or a kind key the merged document has the fragments of
      exactly the paths the JSON response lists, in the same order. */
  lemma MergeAgreesWithJson(env: Env, q: ParsedQuery, m: NoteMap)
    requires Keyed(m) && q.order.None? && q.kindKey.None?
    ensures Merged(env, q, m) == Ok(Assemble(MergedFragments(env, q, m)))
    ensures forall k <- Matching(env, q, m) :: k in m
    ensures var entries := Take(EntriesOf(m, Matching(env, q, m)), q.limit);
            && |MergedFragments(env, q, m)| == |entries|
            && forall i | 0 <= i < |entries| :: MergedFragments(env, q, m)[i].path == entries[i].path
  {
    MatchingExact(env, q, m);
    MatchedPaths(env, q, m);
    PathsSort(env, q, m);
    SamePaths(m, Matching(env, q, m), MatchedFragments(env, q, m), q.limit);
  }

  /** Without an order the fragments are already sorted. */
  lemma PathsSort(env: Env, q: ParsedQuery, m: NoteMap)
    requires Keyed(m) && q.order.None?
    ensures MergedFragments(env, q, m) == Take(MatchedFragments(env, q, m), q.limit)
  {
    MatchingExact(env, q, m);
    MatchedPaths(env, q, m);
    DocumentIsUnique(env, q, m, MatchedFragments(env, q, m));
  }

  lemma SamePaths(m: NoteMap, keys: seq<string>, frags: seq<Fragment>, limit: Option<nat>)
    requires Keyed(m) && forall k <- keys :: k in m
    requires |frags| == |keys| && forall i | 0 <= i < |keys| :: frags[i].path == keys[i]
    ensures var entries := Take(EntriesOf(m, keys), limit);
            && |Take(frags, limit)| == |entries|
            && forall i | 0 <= i < |entries| :: Take(frags, limit)[i].path == entries[i].path
  {
    forall i | 0 <= i < |keys| ensures EntriesOf(m, keys)[i].path == keys[i] {
      assert keys[i] in keys;
    }
  }

}
