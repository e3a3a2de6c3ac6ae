/** The iteration order of a `BTreeMap<String, _>`. */
module Ordered {
  import opened Text

  predicate StrictlyAscending(keys: seq<string>) {
    forall i, j | 0 <= i < j < |keys| :: Compare(keys[i], keys[j]).Less?
  }

  predicate IsLeast(m: string, s: set<string>) {
    m in s && forall k <- s :: AtMost(m, k)
  }

  lemma AtMostAntisymmetric(a: string, b: string)
    requires AtMost(a, b) && AtMost(b, a)
    ensures a == b
  {
    CompareReverse(a, b);
    CompareEqual(a, b);
  }

  lemma {:induction false} LeastExists(s: set<string>)
    requires s != {}
    ensures exists m :: IsLeast(m, s)
    decreases |s|
  {
    var x :| x in s;
    CompareEqual(x, x);
    var rest := s - {x};
    assert s == rest + {x};
    if rest == {} {
      assert IsLeast(x, s);
    } else {
      LeastExists(rest);
      var y :| IsLeast(y, rest);
      CompareReverse(x, y);
      if AtMost(x, y) {
        forall k | k in rest ensures AtMost(x, k) {
          AtMostTransitive(x, y, k);
        }
        assert IsLeast(x, s);
      } else {
        assert IsLeast(y, s);
      }
    }
  }

  function Least(s: set<string>): (m: string)
    requires s != {}
    ensures IsLeast(m, s)
  {
    LeastExists(s);
    assert forall a, b | IsLeast(a, s) && IsLeast(b, s) :: a == b by {
      forall a, b | IsLeast(a, s) && IsLeast(b, s) ensures a == b {
        AtMostAntisymmetric(a, b);
      }
    }
    var m :| m in s && IsLeast(m, s);
    m
  }

  lemma Prepend(k: string, keys: seq<string>)
    requires StrictlyAscending(keys)
    requires forall other <- keys :: Compare(k, other).Less?
    ensures StrictlyAscending([k] + keys)
  {
    forall i, j | 0 <= i < j < |keys| + 1 ensures Compare(([k] + keys)[i], ([k] + keys)[j]).Less? {
      if i == 0 { assert ([k] + keys)[j] == keys[j - 1] && keys[j - 1] in keys; }
    }
  }

  lemma Append(keys: seq<string>, k: string)
    requires StrictlyAscending(keys)
    requires forall other <- keys :: Compare(other, k).Less?
    ensures StrictlyAscending(keys + [k])
  {
    forall i, j | 0 <= i < j < |keys| + 1 ensures Compare((keys + [k])[i], (keys + [k])[j]).Less? {
      if j == |keys| { assert (keys + [k])[i] == keys[i] && keys[i] in keys; }
    }
  }

  lemma EarlierIsLess(keys: seq<string>, i: nat)
    requires StrictlyAscending(keys) && i < |keys|
    ensures forall k <- keys[..i] :: Compare(k, keys[i]).Less?
  {
  }

  /** The keys in iteration order. */
  function Ascending(s: set<string>): (keys: seq<string>)
    ensures |keys| == |s|
    ensures forall k :: k in keys <==> k in s
  {
    if s == {} then [] else [Least(s)] + Ascending(s - {Least(s)})
  }

  lemma {:induction false} AscendingSorted(s: set<string>)
    ensures StrictlyAscending(Ascending(s))
  {
    if s != {} {
      var m := Least(s);
      AscendingSorted(s - {m});
      forall k | k in Ascending(s - {m}) ensures Compare(m, k).Less? {
        CompareEqual(m, k);
      }
      Prepend(m, Ascending(s - {m}));
    }
  }

  /** There is only one ascending listing of a set of keys. */
  lemma {:induction false} AscendingUnique(a: seq<string>, b: seq<string>)
    requires StrictlyAscending(a) && StrictlyAscending(b)
    requires forall k :: k in a <==> k in b
    ensures a == b
  {
    assert b == [] || b[0] in b;
    if a == [] {
      assert b == [];
    } else {
      assert a[0] in b;
      assert b[0] in a;
      var j :| 0 <= j < |b| && b[j] == a[0];
      var i :| 0 <= i < |a| && a[i] == b[0];
      CompareReverse(a[0], b[0]);
      CompareEqual(a[0], a[0]);
      assert a[0] == b[0];
      forall k | k in a[1..] ensures k in b[1..] {
        assert k in a && k in b && k != a[0] by { CompareEqual(k, k); }
      }
      forall k | k in b[1..] ensures k in a[1..] {
        assert k in b && k in a && k != b[0] by { CompareEqual(k, k); }
      }
      AscendingUnique(a[1..], b[1..]);
      assert a == [a[0]] + a[1..] && b == [b[0]] + b[1..];
    }
  }

  // ---- Range scan -----------------------------------------------------------

  /** `map.range(low..)`, on the listed keys. */
  function RangeFrom(keys: seq<string>, low: string): seq<string> {
    if keys == [] then []
    else if AtMost(low, keys[0]) then keys
    else RangeFrom(keys[1..], low)
  }

  /** `.take_while(|k| k.starts_with(prefix))`. */
  function TakeWhileStartsWith(keys: seq<string>, prefix: string): seq<string> {
    if keys == [] || !(prefix <= keys[0]) then []
    else [keys[0]] + TakeWhileStartsWith(keys[1..], prefix)
  }

  lemma {:induction false} TakeWhileExact(keys: seq<string>, prefix: string)
    requires StrictlyAscending(keys)
    requires forall k <- keys :: AtMost(prefix, k)
    ensures forall k :: k in TakeWhileStartsWith(keys, prefix) <==> k in keys && prefix <= k
    ensures StrictlyAscending(TakeWhileStartsWith(keys, prefix))
  {
    if keys != [] {
      if prefix <= keys[0] {
        TakeWhileExact(keys[1..], prefix);
        forall k | k in keys[1..] ensures Compare(keys[0], k).Less? {
          var i :| 1 <= i < |keys| && keys[i] == k;
        }
        Prepend(keys[0], TakeWhileStartsWith(keys[1..], prefix));
      } else {
        forall k | k in keys ensures !(prefix <= k) {
          if prefix <= k {
            PrefixRun(prefix, keys[0], k);
          }
        }
      }
    }
  }

  /** The range scan finds exactly the keys that start with `prefix`,
      wherever in the order they lie, each of them once. */
  lemma {:induction false} RangeScanExact(keys: seq<string>, prefix: string)
    requires StrictlyAscending(keys)
    ensures var found := TakeWhileStartsWith(RangeFrom(keys, prefix), prefix);
            && (forall k :: k in found <==> k in keys && prefix <= k)
            && StrictlyAscending(found)
  {
    if keys != [] {
      if AtMost(prefix, keys[0]) {
        forall k | k in keys ensures AtMost(prefix, k) {
          if k != keys[0] { AtMostTransitive(prefix, keys[0], k); }
        }
        TakeWhileExact(keys, prefix);
      } else {
        RangeScanExact(keys[1..], prefix);
        if prefix <= keys[0] {
          PrefixAtMost(prefix, keys[0]);
        }
      }
    }
  }

  // ---- Sizes and selections ---------------------------------------------------

  lemma AtMostOneKey<V>(m: map<string, V>)
    ensures |m| <= 1 <==> forall a, b | a in m && b in m :: a == b
  {
    if |m| > 1 {
      var a :| a in m.Keys;
      assert |m.Keys - {a}| == |m| - 1;
      var b :| b in m.Keys - {a};
    }
    if |m| <= 1 {
      forall a, b | a in m && b in m ensures a == b {
        if a != b {
          assert {a, b} <= m.Keys;
          SubsetSize({a, b}, m.Keys);
        }
      }
    }
  }

  lemma {:induction false} SubsetSize<T>(a: set<T>, b: set<T>)
    requires a <= b
    ensures |a| <= |b|
  {
    assert b == a + (b - a);
  }

  /** Those of the keys that are in `s`, in the same order. */
  function Among(keys: seq<string>, s: set<string>): seq<string> {
    if keys == [] then []
    else
      var last := keys[|keys| - 1];
      Among(keys[..|keys| - 1], s) + if last in s then [last] else []
  }

  lemma {:induction false} AmongExact(keys: seq<string>, s: set<string>)
    requires StrictlyAscending(keys)
    ensures forall k :: k in Among(keys, s) <==> k in keys && k in s
    ensures StrictlyAscending(Among(keys, s))
    decreases |keys|
  {
    if keys != [] {
      var init, last := keys[..|keys| - 1], keys[|keys| - 1];
      AmongExact(init, s);
      EarlierIsLess(keys, |keys| - 1);
      assert keys == init + [last];
      Append(Among(init, s), last);
    }
  }

  lemma AmongAscending(all: set<string>, s: set<string>)
    requires s <= all
    ensures Among(Ascending(all), s) == Ascending(s)
  {
    AscendingSorted(all);
    AscendingSorted(s);
    AmongExact(Ascending(all), s);
    AscendingUnique(Among(Ascending(all), s), Ascending(s));
  }

  lemma AmongStep(keys: seq<string>, s: set<string>, i: nat)
    requires i < |keys|
    ensures Among(keys[..i + 1], s) == Among(keys[..i], s) + if keys[i] in s then [keys[i]] else []
  {
    assert keys[..i + 1][..i] == keys[..i];
  }
}
