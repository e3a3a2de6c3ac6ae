/** Wrappers and byte strings.

    A Rust `str` is its UTF-8 bytes.  It is modelled as a Dafny `string` whose
    characters stand for those bytes, so `Compare` below is Rust's `str::cmp`,
    and every delimiter the program looks for is a single character. */
module Text {
  datatype Option<+T> = None | Some(value: T)

  datatype Result<+T, +E> = Ok(value: T) | Err(error: E)

  datatype Ordering = Less | Equal | Greater {
    function Reverse(): Ordering {
      match this
      case Less => Greater
      case Equal => Equal
      case Greater => Less
    }

    function Then(next: Ordering): Ordering {
      if Equal? then next else this
    }
  }

  function CompareInt(a: int, b: int): Ordering {
    if a < b then Less else if a > b then Greater else Equal
  }

  // ---- Lexicographic order ------------------------------------------------

  function Compare(a: string, b: string): Ordering {
    if a == [] then (if b == [] then Equal else Less)
    else if b == [] then Greater
    else if a[0] < b[0] then Less
    else if a[0] > b[0] then Greater
    else Compare(a[1..], b[1..])
  }

  predicate AtMost(a: string, b: string) {
    !Compare(a, b).Greater?
  }

  lemma {:induction false} CompareEqual(a: string, b: string)
    ensures Compare(a, b) == Equal <==> a == b
  {
    if a != [] && b != [] {
      CompareEqual(a[1..], b[1..]);
      assert a == [a[0]] + a[1..] && b == [b[0]] + b[1..];
    }
  }

  lemma {:induction false} CompareReverse(a: string, b: string)
    ensures Compare(b, a) == Compare(a, b).Reverse()
  {
    if a != [] && b != [] {
      CompareReverse(a[1..], b[1..]);
    }
  }

  lemma {:induction false} CompareTransitive(a: string, b: string, c: string)
    requires Compare(a, b) == Less && Compare(b, c) == Less
    ensures Compare(a, c) == Less
  {
    if a != [] && a[0] == b[0] == c[0] {
      CompareTransitive(a[1..], b[1..], c[1..]);
    }
  }

  lemma AtMostTransitive(a: string, b: string, c: string)
    requires AtMost(a, b) && AtMost(b, c)
    ensures AtMost(a, c)
  {
    CompareEqual(a, b);
    CompareEqual(b, c);
    if a != b && b != c {
      CompareTransitive(a, b, c);
    }
  }

  /** Texts of equal length are compared part by part. */
  lemma {:induction false} CompareConcat(a: string, b: string, c: string, d: string)
    requires |a| == |b|
    ensures Compare(a + c, b + d) == Compare(a, b).Then(Compare(c, d))
  {
    if a == [] {
      assert a + c == c && b + d == d;
    } else {
      assert (a + c)[1..] == a[1..] + c && (b + d)[1..] == b[1..] + d;
      CompareConcat(a[1..], b[1..], c, d);
    }
  }

  /** The keys that start with `prefix` form one run of the sorted order,
      and the run begins no earlier than `prefix` itself. */
  lemma {:induction false} PrefixRun(prefix: string, a: string, b: string)
    requires AtMost(prefix, a) && AtMost(a, b) && prefix <= b
    ensures prefix <= a
  {
    if prefix != [] {
      PrefixRun(prefix[1..], a[1..], b[1..]);
      assert prefix == [prefix[0]] + prefix[1..] && a == [a[0]] + a[1..];
    }
  }

  lemma {:induction false} PrefixAtMost(prefix: string, a: string)
    requires prefix <= a
    ensures AtMost(prefix, a)
  {
    if prefix != [] {
      PrefixAtMost(prefix[1..], a[1..]);
    }
  }

  // ---- Splitting and joining ----------------------------------------------

  /** `s.split(sep)`: never empty, and the empty text has one empty part. */
  function Split(s: string, sep: char): (parts: seq<string>)
    ensures |parts| >= 1
  {
    if s == [] then [[]]
    else
      var rest := Split(s[1..], sep);
      if s[0] == sep then [[]] + rest else [[s[0]] + rest[0]] + rest[1..]
  }

  function Join(parts: seq<string>, sep: char): string {
    if parts == [] then []
    else if |parts| == 1 then parts[0]
    else parts[0] + [sep] + Join(parts[1..], sep)
  }

  predicate Free(sep: char, parts: seq<string>) {
    forall part <- parts :: sep !in part
  }

  lemma {:induction false} SplitFree(s: string, sep: char)
    ensures Free(sep, Split(s, sep))
  {
    if s != [] {
      SplitFree(s[1..], sep);
      var rest := Split(s[1..], sep);
      forall part | part in Split(s, sep) ensures sep !in part {
        if part !in rest {
          assert part == [] || part == [s[0]] + rest[0];
        }
      }
    }
  }

  lemma {:induction false} JoinSplit(s: string, sep: char)
    ensures Join(Split(s, sep), sep) == s
  {
    if s != [] {
      JoinSplit(s[1..], sep);
      var rest := Split(s[1..], sep);
      assert s == [s[0]] + s[1..];
      if s[0] == sep {
        assert Split(s, sep)[1..] == rest;
      } else if |rest| > 1 {
        assert Split(s, sep)[1..] == rest[1..];
      }
    }
  }

  lemma {:induction false} SplitConcat(a: string, b: string, sep: char)
    ensures Split(a + [sep] + b, sep) == Split(a, sep) + Split(b, sep)
  {
    if a == [] {
      assert (a + [sep] + b)[1..] == b;
    } else {
      assert (a + [sep] + b)[1..] == a[1..] + [sep] + b;
      SplitConcat(a[1..], b, sep);
    }
  }

  lemma {:induction false} SplitNone(s: string, sep: char)
    requires sep !in s
    ensures Split(s, sep) == [s]
  {
    if s != [] {
      SplitNone(s[1..], sep);
      assert s == [s[0]] + s[1..];
    }
  }

  lemma {:induction false} SplitJoin(parts: seq<string>, sep: char)
    requires parts != [] && Free(sep, parts)
    ensures Split(Join(parts, sep), sep) == parts
  {
    SplitNone(parts[0], sep);
    if |parts| > 1 {
      SplitJoin(parts[1..], sep);
      SplitConcat(parts[0], Join(parts[1..], sep), sep);
      assert parts == [parts[0]] + parts[1..];
    } else {
      assert parts == [parts[0]];
    }
  }

  lemma {:induction false} JoinConcat(a: seq<string>, b: seq<string>, sep: char)
    requires a != [] && b != []
    ensures Join(a + b, sep) == Join(a, sep) + [sep] + Join(b, sep)
  {
    if |a| == 1 {
      assert (a + b)[1..] == b;
    } else {
      assert (a + b)[1..] == a[1..] + b;
      JoinConcat(a[1..], b, sep);
    }
  }

  /** `s.find(c)`. */
  function Find(s: string, c: char): (i: Option<nat>)
    ensures i.None? <==> c !in s
    ensures i.Some? ==> i.value < |s| && s[i.value] == c && c !in s[..i.value]
  {
    if s == [] then None
    else if s[0] == c then Some(0)
    else
      match Find(s[1..], c)
      case None => None
      case Some(i) =>
        assert s[..i + 1] == [s[0]] + s[1..][..i];
        Some(i + 1)
  }

  lemma {:induction false} FindIs(head: string, tail: string, c: char)
    requires c !in head
    ensures Find(head + [c] + tail, c) == Some(|head|)
  {
    var s := head + [c] + tail;
    if head == [] {
      assert s[0] == c;
    } else {
      assert s[0] == head[0] && s[1..] == head[1..] + [c] + tail;
      FindIs(head[1..], tail, c);
    }
  }
}
