/** What the merged document looks like, and in what order. */
module Document {
  import opened Text
  import opened Ordered
  import opened Notes
  import opened Store
  import opened Query
  import opened Values
  import opened Evaluate
  import opened Operators
  import opened Sorting
  import opened Merge

  // ---- The text -------------------------------------------------------------------------

  /** The marker line and the verbatim body. */
  function PartText(path: string, body: string): string {
    "<!-- source: " + path + " -->\n" + body
  }

  function PartOf(f: Fragment): string {
    PartText(f.path, f.body)
  }

  lemma {:induction false} JoinTextConcat(a: seq<string>, b: seq<string>, sep: string)
    requires a != [] && b != []
    ensures JoinText(a + b, sep) == JoinText(a, sep) + sep + JoinText(b, sep)
  {
    if |a| == 1 {
      assert (a + b)[1..] == b;
    } else {
      assert (a + b)[1..] == a[1..] + b;
      JoinTextConcat(a[1..], b, sep);
    }
  }

  function Parts(frags: seq<Fragment>): seq<string> {
    seq(|frags|, i requires 0 <= i < |frags| => PartOf(frags[i]))
  }

  lemma AssembledParts(frags: seq<Fragment>)
    ensures Assemble(frags) == JoinText(Parts(frags), "\n\n")
  {
    var texts := seq(|frags|, i requires 0 <= i < |frags| =>
      "<!-- source: " + frags[i].path + " -->\n" + frags[i].body);
    assert texts == Parts(frags);
  }

  /** No fragments give no text, one gives its part. */
  lemma SmallDocuments(f: Fragment)
    ensures Assemble([]) == ""
    ensures Assemble([f]) == PartText(f.path, f.body)
  {
    AssembledParts([]);
    AssembledParts([f]);
  }

  /** A list of fragments gives the documents of its two halves, a blank line
      between them. */
  lemma DocumentsJoin(a: seq<Fragment>, b: seq<Fragment>)
    requires a != [] && b != []
    ensures Assemble(a + b) == Assemble(a) + "\n\n" + Assemble(b)
  {
    AssembledParts(a);
    AssembledParts(b);
    AssembledParts(a + b);
    assert Parts(a + b) == Parts(a) + Parts(b);
    JoinTextConcat(Parts(a), Parts(b), "\n\n");
  }

  /** Where the i-th part begins: after the parts before it and the blank
      lines that follow them. */
  function Offset(frags: seq<Fragment>, i: nat): nat
    requires i <= |frags|
  {
    if i == 0 then 0 else Offset(frags, i - 1) + |PartOf(frags[i - 1])| + 2
  }

  lemma {:induction false} OffsetOfInit(frags: seq<Fragment>, i: nat)
    requires frags != [] && i < |frags|
    ensures Offset(frags, i) == Offset(frags[..|frags| - 1], i)
  {
    if i > 0 { OffsetOfInit(frags, i - 1); }
  }

  lemma DocumentGrows(frags: seq<Fragment>)
    requires |frags| > 1
    ensures Assemble(frags) == Assemble(frags[..|frags| - 1]) + ("\n\n" + PartOf(frags[|frags| - 1]))
  {
    var init, last := frags[..|frags| - 1], frags[|frags| - 1];
    SmallDocuments(last);
    DocumentsJoin(init, [last]);
    assert frags == init + [last];
    assert Assemble(init) + "\n\n" + PartOf(last) == Assemble(init) + ("\n\n" + PartOf(last));
  }

  /** The document is exactly as long as its parts and the blank lines between. */
  lemma {:induction false} DocumentLength(frags: seq<Fragment>)
    requires frags != []
    ensures |Assemble(frags)| == Offset(frags, |frags|) - 2
    decreases |frags|
  {
    var n := |frags| - 1;
    if n == 0 {
      SmallDocuments(frags[0]);
      assert frags == [frags[0]];
    } else {
      DocumentLength(frags[..n]);
      DocumentGrows(frags);
      OffsetOfInit(frags, n);
    }
  }

  /** Each fragment stands at its place in the document, marker and body
      verbatim. */
  lemma {:induction false} PartsStand(frags: seq<Fragment>, i: nat)
    requires i < |frags|
    ensures StandsAt(Assemble(frags), Offset(frags, i), PartOf(frags[i]))
    decreases |frags|
  {
    var n := |frags| - 1;
    if n == 0 {
      SmallDocuments(frags[0]);
      assert frags == [frags[0]];
    } else {
      DocumentGrows(frags);
      DocumentLength(frags[..n]);
      OffsetOfInit(frags, i);
      if i < n {
        PartsStand(frags[..n], i);
        StillStands(Assemble(frags[..n]), "\n\n" + PartOf(frags[n]), Offset(frags, i), PartOf(frags[i]));
      } else {
        OffsetOfInit(frags, n);
        LastStands(Assemble(frags[..n]), PartOf(frags[n]));
      }
    }
  }

  predicate StandsAt(text: string, at: nat, part: string) {
    at + |part| <= |text| && text[at..at + |part|] == part
  }

  lemma LastStands(text: string, part: string)
    ensures StandsAt(text + ("\n\n" + part), |text| + 2, part)
  {
  }

  lemma StillStands(text: string, more: string, at: nat, part: string)
    requires StandsAt(text, at, part)
    ensures StandsAt(text + more, at, part)
  {
  }

  // ---- What the merge command answers -----------------------------------------------------------

  /** Every kept fragment carries path and body of a matched note. */
  lemma FragmentsAreNotes(env: Env, q: ParsedQuery, m: NoteMap, f: Fragment)
    requires f in MergedFragments(env, q, m)
    ensures exists k <- Matching(env, q, m) :: k in m && f.path == m[k].path && f.body == m[k].body
              && (q.order.Some? ==> f.orderValue == LookupDotted(m[k].frontmatter, q.order.value.key))
  {
    var frags, cmp := MatchedFragments(env, q, m), FragmentCmp(env, q.order);
    SortPermutes(cmp, frags);
    assert f in multiset(Sort(cmp, frags));
    assert f in frags;
    var k := KeyOfFragment(env, q, m, f);
  }

  /** A query that matches nothing merges to the empty text. */
  lemma NothingMerged(env: Env, q: ParsedQuery, m: NoteMap)
    requires Matching(env, q, m) == []
    ensures Merged(env, q, m) == Ok("")
  {
    assert MatchedFragments(env, q, m) == [];
    assert MergedFragments(env, q, m) == [];
    AssembledParts([]);
  }

  /** A query that matches one note merges to its marker line and body. */
  lemma OneMerged(env: Env, q: ParsedQuery, m: NoteMap, k: string)
    requires Keyed(m) && Matching(env, q, m) == [k] && k in m
    requires q.limit.Some? ==> q.limit.value > 0
    requires q.kindKey.Some? ==> LookupDotted(m[k].frontmatter, q.kindKey.value).Some?
    ensures Merged(env, q, m) == Ok("<!-- source: " + m[k].path + " -->\n" + m[k].body)
  {
    var f := FragmentOf(q, m[k]);
    assert MatchedFragments(env, q, m) == [f];
    OneSorts(FragmentCmp(env, q.order), f);
    assert MergedFragments(env, q, m) == [f];
    OneIsOneKind(env, q, f);
    SmallDocuments(f);
  }

  lemma OneIsOneKind(env: Env, q: ParsedQuery, f: Fragment)
    requires q.kindKey.Some? ==> f.kindValue.Some?
    ensures q.kindKey.Some? ==> OneKind(env, [f])
  {
  }

  lemma OneSorts<A>(cmp: (A, A) -> Ordering, x: A)
    ensures Sort(cmp, [x]) == [x]
  {
    assert [x][1..] == [];
  }

  // ---- The order of the fragments -----------------------------------------------------------------

  lemma IntsInOrder(env: Env, i: int, j: int)
    ensures CompareValues(env, Int(i), Int(j)).Less? <==> i < j
  {
  }

  lemma FloatsInOrder(env: Env, x: F64, y: F64, s: string, t: string)
    ensures CompareValues(env, Float(x, s), Float(y, t)).Less? <==> Smaller(x, y)
  {
  }

  lemma IntAndFloatInOrder(env: Env, i: int, y: F64, t: string)
    requires -TWO53 <= i <= TWO53
    ensures CompareValues(env, Int(i), Float(y, t)).Less? <==> Smaller(Finite(i as real), y)
    ensures CompareValues(env, Float(y, t), Int(i)).Less? <==> Smaller(y, Finite(i as real))
  {
    SmallIsExact(i);
  }

  lemma DatesInOrder(env: Env, d: Date, e: Date)
    ensures CompareValues(env, DateOnly(d), DateOnly(e)).Less? <==> Earlier(d, e)
  {
  }

  lemma InstantsInOrder(env: Env, a: Instant, b: Instant)
    ensures CompareValues(env, DateTime(a), DateTime(b)).Less? <==> Sooner(a, b)
  {
  }

  /** All else by the printed texts, byte by byte. */
  lemma TextsInOrder(env: Env, a: Value, b: Value)
    requires RungOf(a) != RungOf(b) || RungOf(a) == Other
    ensures CompareValues(env, a, b).Less? <==> Before(CanonicalString(env, a), CanonicalString(env, b))
  {
    AcrossRungs(env, a, b);
    BeforeExactly(CanonicalString(env, a), CanonicalString(env, b));
  }

  /** In a merged document one fragment precedes another: a note that has the
      order key before one that has not, in either direction; of two that have
      it the lesser first, or the greater if descending; and where that leaves it
      open, by path. */
  predicate Precedes(env: Env, order: Option<OrderSpec>, f: Fragment, g: Fragment) {
    if order.Some? && f.orderValue.Some? && g.orderValue.Some? then
      var low, high := if order.value.desc then g.orderValue.value else f.orderValue.value,
                       if order.value.desc then f.orderValue.value else g.orderValue.value;
      || CompareValues(env, low, high).Less?
      || (CompareValues(env, low, high).Equal? && Compare(f.path, g.path).Less?)
    else if order.Some? && (f.orderValue.Some? || g.orderValue.Some?) then f.orderValue.Some?
    else Compare(f.path, g.path).Less?
  }

  lemma LessIsPrecedes(env: Env, order: Option<OrderSpec>, f: Fragment, g: Fragment)
    ensures FragmentCmp(env, order)(f, g).Less? <==> Precedes(env, order, f, g)
  {
    if f.orderValue.Some? && g.orderValue.Some? {
      ValuesReverse(env, f.orderValue.value, g.orderValue.value);
    }
  }

  lemma TakenInOrder<A(!new)>(
    cmp: (A, A) -> Ordering, xs: seq<A>, items: multiset<A>, limit: Option<nat>, i: nat, j: nat)
    requires multiset(xs) == items && Preorder(cmp, items) && Strict(cmp, items) && Sorted(cmp, xs)
    requires forall x <- items :: items[x] == 1
    requires i < j < |Take(xs, limit)|
    ensures cmp(Take(xs, limit)[i], Take(xs, limit)[j]).Less?
  {
    TwiceIsTwo(xs, i, j);
    assert xs[i] in multiset(xs);
    LessWhenApart(cmp, xs, i, j, items);
  }

  lemma TwiceIsTwo<A>(xs: seq<A>, i: nat, j: nat)
    requires i < j < |xs| && multiset(xs)[xs[i]] == 1
    ensures xs[i] != xs[j]
  {
    assert xs == xs[..j] + [xs[j]] + xs[j + 1..];
    assert xs[i] in xs[..j];
  }

  /** The fragments of the merged document stand in that order. */
  lemma DocumentInOrder(env: Env, q: ParsedQuery, m: NoteMap, i: nat, j: nat)
    requires Keyed(m)
    requires q.order.Some? ==> Lawful(env, OrderValues(multiset(MatchedFragments(env, q, m))))
    requires i < j < |MergedFragments(env, q, m)|
    ensures Precedes(env, q.order, MergedFragments(env, q, m)[i], MergedFragments(env, q, m)[j])
  {
    var frags, cmp := MatchedFragments(env, q, m), FragmentCmp(env, q.order);
    SortedFragments(env, q, m);
    MatchedDistinct(env, q, m);
    forall x | x in multiset(frags) ensures multiset(frags)[x] == 1 { assert x in frags; }
    TakenInOrder(cmp, Sort(cmp, frags), multiset(frags), q.limit, i, j);
    LessIsPrecedes(env, q.order, MergedFragments(env, q, m)[i], MergedFragments(env, q, m)[j]);
  }

  // ---- The guard's message ----------------------------------------------------------------------------

  /** Named as missing are exactly the notes without the key. */
  lemma {:induction false} MissingNames(frags: seq<Fragment>, path: string)
    ensures path in Missing(frags) <==> exists f <- frags :: f.path == path && f.kindValue.None?
  {
    if frags != [] {
      MissingNames(frags[..|frags| - 1], path);
      assert frags == frags[..|frags| - 1] + [frags[|frags| - 1]];
    }
  }

  /** Named under a kind are exactly the notes whose value prints so. */
  lemma {:induction false} GroupNames(env: Env, frags: seq<Fragment>, kind: string, path: string)
    ensures kind in Groups(env, frags) && path in Groups(env, frags)[kind]
       <==> exists f <- frags :: f.path == path && f.kindValue.Some? && CanonicalString(env, f.kindValue.value) == kind
  {
    if frags != [] {
      GroupNames(env, frags[..|frags| - 1], kind, path);
      assert frags == frags[..|frags| - 1] + [frags[|frags| - 1]];
    }
  }

  function Header(key: string): string {
    "__anw-kind=" + key + ": merge requires every matched note to share one value for `" + key + "`\n"
  }

  /** The message for two kinds, least first, each with its notes. */
  lemma TwoKindsMessage(key: string, a: string, p: string, b: string, q: string)
    requires Compare(a, b).Less?
    ensures KindErrorText(key, [], map[a := [p], b := [q]])
         == Header(key) + "distinct values found:\n" + ("  " + a + ": " + p + "\n" + ("  " + b + ": " + q + "\n"))
  {
    var groups := map[a := [p], b := [q]];
    CompareEqual(a, b);
    assert groups.Keys == {a, b};
    AscendingPair(a, b);
    assert [a, b][1..] == [b] && [b][1..] == [];
    assert GroupLines(groups, [b]) == "  " + b + ": " + q + "\n" + GroupLines(groups, []);
    assert KindErrorText(key, [], groups)
        == Header(key) + ("distinct values found:\n" + GroupLines(groups, [a, b])) + "";
  }

  lemma AscendingPair(a: string, b: string)
    requires Compare(a, b).Less?
    ensures Ascending({a, b}) == [a, b]
  {
    CompareEqual(a, b);
    AscendingSorted({a, b});
    AscendingUnique(Ascending({a, b}), [a, b]);
  }

  /** The message for one kind and a note without the key. */
  lemma MissingMessage(key: string, groups: map<string, seq<string>>, p: string, q: string)
    requires |groups| <= 1
    ensures KindErrorText(key, [p, q], groups) == Header(key) + ("notes missing the key: " + (p + ", " + q) + "\n")
  {
    assert [p, q][1..] == [q];
    assert JoinText([p, q], ", ") == p + ", " + q;
  }
}
