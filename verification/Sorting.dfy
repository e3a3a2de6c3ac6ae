/** Stable sorting by a comparator, and when its result is the only one. */
module Sorting {
  import opened Text

  /** Insert before the first item that is not less: earlier items stay first. */
  function Insert<A>(cmp: (A, A) -> Ordering, x: A, xs: seq<A>): seq<A> {
    if xs == [] then [x]
    else if cmp(x, xs[0]).Greater? then [xs[0]] + Insert(cmp, x, xs[1..])
    else [x] + xs
  }

  /** `xs.sort_by(cmp)`. */
  function Sort<A>(cmp: (A, A) -> Ordering, xs: seq<A>): seq<A> {
    if xs == [] then [] else Insert(cmp, xs[0], Sort(cmp, xs[1..]))
  }

  predicate Sorted<A>(cmp: (A, A) -> Ordering, xs: seq<A>) {
    forall i, j | 0 <= i < j < |xs| :: !cmp(xs[i], xs[j]).Greater?
  }

  /** A total preorder on these items. */
  ghost predicate Preorder<A(!new)>(cmp: (A, A) -> Ordering, items: multiset<A>) {
    && (forall a, b | a in items && b in items :: cmp(b, a) == cmp(a, b).Reverse())
    && (forall a, b, c | a in items && b in items && c in items && !cmp(a, b).Greater? && !cmp(b, c).Greater? ::
          !cmp(a, c).Greater?)
  }

  /** No two different items compare equal. */
  ghost predicate Strict<A(!new)>(cmp: (A, A) -> Ordering, items: multiset<A>) {
    forall a, b | a in items && b in items && cmp(a, b).Equal? :: a == b
  }

  lemma PreorderTransitive<A(!new)>(cmp: (A, A) -> Ordering, items: multiset<A>, a: A, b: A, c: A)
    requires Preorder(cmp, items) && a in items && b in items && c in items
    ensures !cmp(a, b).Greater? && !cmp(b, c).Greater? ==> !cmp(a, c).Greater?
  {
  }

  lemma {:induction false} InsertPermutes<A>(cmp: (A, A) -> Ordering, x: A, xs: seq<A>)
    ensures multiset(Insert(cmp, x, xs)) == multiset{x} + multiset(xs)
  {
    if xs != [] {
      assert xs == [xs[0]] + xs[1..];
      if cmp(x, xs[0]).Greater? {
        InsertPermutes(cmp, x, xs[1..]);
      }
    }
  }

  lemma {:induction false} SortPermutes<A>(cmp: (A, A) -> Ordering, xs: seq<A>)
    ensures multiset(Sort(cmp, xs)) == multiset(xs)
  {
    if xs != [] {
      assert xs == [xs[0]] + xs[1..];
      SortPermutes(cmp, xs[1..]);
      InsertPermutes(cmp, xs[0], Sort(cmp, xs[1..]));
    }
  }

  lemma {:induction false} InsertSorts<A(!new)>(cmp: (A, A) -> Ordering, x: A, xs: seq<A>, items: multiset<A>)
    requires Preorder(cmp, items) && x in items && (forall y <- xs :: y in items) && Sorted(cmp, xs)
    ensures Sorted(cmp, Insert(cmp, x, xs))
  {
    if xs != [] {
      if cmp(x, xs[0]).Greater? {
        InsertSorts(cmp, x, xs[1..], items);
        InsertPermutes(cmp, x, xs[1..]);
        var rest := Insert(cmp, x, xs[1..]);
        forall j | 0 <= j < |rest| ensures !cmp(xs[0], rest[j]).Greater? {
          assert rest[j] in multiset(rest);
          if rest[j] != x { assert rest[j] in xs[1..]; }
        }
      } else {
        forall j | 0 <= j < |xs| ensures !cmp(x, xs[j]).Greater? {
          assert xs[0] in items && xs[j] in items;
        }
      }
    }
  }

  lemma {:induction false} SortSorts<A(!new)>(cmp: (A, A) -> Ordering, xs: seq<A>, items: multiset<A>)
    requires Preorder(cmp, items) && forall y <- xs :: y in items
    ensures Sorted(cmp, Sort(cmp, xs))
  {
    if xs != [] {
      SortSorts(cmp, xs[1..], items);
      SortPermutes(cmp, xs[1..]);
      forall y | y in Sort(cmp, xs[1..]) ensures y in items {
        assert y in multiset(Sort(cmp, xs[1..]));
        assert y in xs[1..];
      }
      InsertSorts(cmp, xs[0], Sort(cmp, xs[1..]), items);
    }
  }

  lemma HeadsEqual<A(!new)>(cmp: (A, A) -> Ordering, xs: seq<A>, ys: seq<A>, items: multiset<A>)
    requires xs != [] && multiset(xs) == multiset(ys) && multiset(xs) <= items
    requires Preorder(cmp, items) && Strict(cmp, items)
    requires Sorted(cmp, xs) && Sorted(cmp, ys)
    ensures ys != [] && xs[0] == ys[0]
  {
    assert xs[0] in multiset(xs);
    assert xs[0] in ys;
    assert ys[0] in multiset(ys);
    assert ys[0] in xs;
    var i :| 0 <= i < |xs| && xs[i] == ys[0];
    var j :| 0 <= j < |ys| && ys[j] == xs[0];
    assert xs[0] in items && ys[0] in items;
    assert i == 0 || !cmp(xs[0], xs[i]).Greater?;
    assert j == 0 || !cmp(ys[0], ys[j]).Greater?;
  }

  /** Under a strict order a list has only one sorted arrangement. */
  lemma {:induction false} SortedUnique<A(!new)>(cmp: (A, A) -> Ordering, xs: seq<A>, ys: seq<A>, items: multiset<A>)
    requires multiset(xs) == multiset(ys) && multiset(xs) <= items
    requires Preorder(cmp, items) && Strict(cmp, items)
    requires Sorted(cmp, xs) && Sorted(cmp, ys)
    ensures xs == ys
  {
    assert |multiset(xs)| == |multiset(ys)|;
    if xs != [] {
      HeadsEqual(cmp, xs, ys, items);
      TailOf(xs);
      TailOf(ys);
      SortedUnique(cmp, xs[1..], ys[1..], items);
    }
  }

  lemma TailOf<A>(xs: seq<A>)
    requires xs != []
    ensures xs == [xs[0]] + xs[1..] && multiset(xs[1..]) == multiset(xs) - multiset{xs[0]}
  {
    assert xs == [xs[0]] + xs[1..];
  }

  /** Cutting a sorted list of different items keeps the least ones. */
  lemma PrefixIsLeast<A(!new)>(cmp: (A, A) -> Ordering, all: seq<A>, n: nat, items: multiset<A>)
    requires multiset(all) == items && n <= |all|
    requires Preorder(cmp, items) && Strict(cmp, items) && Sorted(cmp, all)
    requires forall x <- items :: items[x] == 1
    ensures multiset(all[..n]) <= items && |multiset(all[..n])| == n && |items| == |all|
    ensures forall f, g | f in multiset(all[..n]) && g in items - multiset(all[..n]) :: cmp(f, g).Less?
  {
    assert all == all[..n] + all[n..];
    forall f, g | f in multiset(all[..n]) && g in items - multiset(all[..n]) ensures cmp(f, g).Less? {
      var i, j := KeptAndDropped(all, n, f, g);
      assert items[f] == 1 && f != g;
      LessWhenApart(cmp, all, i, j, items);
    }
  }

  lemma KeptAndDropped<A>(all: seq<A>, n: nat, f: A, g: A) returns (i: nat, j: nat)
    requires n <= |all| && f in multiset(all[..n]) && g in multiset(all) - multiset(all[..n])
    ensures i < n <= j < |all| && all[i] == f && all[j] == g && multiset(all)[f] >= 1
    ensures multiset(all)[f] == 1 ==> f != g
  {
    var kept, dropped := all[..n], all[n..];
    assert all == kept + dropped;
    assert g in multiset(dropped);
    i :| 0 <= i < |kept| && kept[i] == f;
    var k :| 0 <= k < |dropped| && dropped[k] == g;
    j := n + k;
  }

  lemma LessWhenApart<A(!new)>(cmp: (A, A) -> Ordering, all: seq<A>, i: nat, j: nat, items: multiset<A>)
    requires multiset(all) == items && i < j < |all| && all[i] != all[j]
    requires Preorder(cmp, items) && Strict(cmp, items) && Sorted(cmp, all)
    ensures cmp(all[i], all[j]).Less?
  {
    assert all[i] in multiset(all) && all[j] in multiset(all);
  }

  lemma {:induction false} OnceEach<A>(xs: seq<A>)
    requires forall i, j | 0 <= i < j < |xs| :: xs[i] != xs[j]
    ensures forall x | x in xs :: multiset(xs)[x] == 1
  {
    if xs != [] {
      assert xs == [xs[0]] + xs[1..];
      OnceEach(xs[1..]);
      assert xs[0] !in xs[1..];
    }
  }

  // ---- Stability -----------------------------------------------------------------------

  /** The items that compare equal to `x`, in their order. */
  function Peers<A>(cmp: (A, A) -> Ordering, x: A, xs: seq<A>): seq<A> {
    if xs == [] then [] else (if cmp(xs[0], x).Equal? then [xs[0]] else []) + Peers(cmp, x, xs[1..])
  }

  lemma {:induction false} InsertStable<A(!new)>(cmp: (A, A) -> Ordering, y: A, xs: seq<A>, x: A, items: multiset<A>)
    requires Preorder(cmp, items) && x in items && y in items && forall z <- xs :: z in items
    ensures Peers(cmp, x, Insert(cmp, y, xs)) == (if cmp(y, x).Equal? then [y] else []) + Peers(cmp, x, xs)
  {
    if xs == [] || !cmp(y, xs[0]).Greater? {
      assert Insert(cmp, y, xs)[1..] == xs;
    } else {
      assert Insert(cmp, y, xs)[1..] == Insert(cmp, y, xs[1..]);
      InsertStable(cmp, y, xs[1..], x, items);
      NotBothPeers(cmp, y, xs[0], x, items);
    }
  }

  lemma NotBothPeers<A(!new)>(cmp: (A, A) -> Ordering, y: A, z: A, x: A, items: multiset<A>)
    requires Preorder(cmp, items) && x in items && y in items && z in items && cmp(y, z).Greater?
    ensures !(cmp(y, x).Equal? && cmp(z, x).Equal?)
  {
    assert cmp(x, z) == cmp(z, x).Reverse() && cmp(x, y) == cmp(y, x).Reverse();
  }

  /** Sorting keeps items that compare equal in their order. */
  lemma {:induction false} SortStable<A(!new)>(cmp: (A, A) -> Ordering, xs: seq<A>, x: A, items: multiset<A>)
    requires Preorder(cmp, items) && x in items && forall z <- xs :: z in items
    ensures Peers(cmp, x, Sort(cmp, xs)) == Peers(cmp, x, xs)
  {
    if xs != [] {
      SortStable(cmp, xs[1..], x, items);
      SortPermutes(cmp, xs[1..]);
      forall z | z in Sort(cmp, xs[1..]) ensures z in items {
        assert z in multiset(Sort(cmp, xs[1..]));
        assert z in xs[1..];
      }
      InsertStable(cmp, xs[0], Sort(cmp, xs[1..]), x, items);
    }
  }
}
