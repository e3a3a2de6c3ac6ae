/** What each query operator asks, note by note. */
module Operators {
  import opened Text
  import opened Paths
  import opened Notes
  import opened Store
  import opened Encoding
  import opened Query
  import opened Values
  import opened Evaluate

  /** The paths a query with this one predicate matches. */
  function Answers(env: Env, m: NoteMap, field: string, op: Operator, value: string): set<string> {
    set k | k in m && k in Matching(env, NEW.(predicates := [Predicate(field, op, value)]), m)
  }

  /** What the note holds under the key. */
  function Held(m: NoteMap, k: string, field: string): Option<Value>
    requires k in m
  {
    LookupDotted(m[k].frontmatter, field)
  }

  lemma AnswersExactly(env: Env, m: NoteMap, field: string, op: Operator, value: string, k: string)
    requires k in m
    ensures k in Answers(env, m, field, op, value)
       <==> PredicateMatch(env, Predicate(field, op, value), m[k].frontmatter)
  {
    var q := NEW.(predicates := [Predicate(field, op, value)]);
    MatchingExact(env, q, m);
    assert Predicate(field, op, value) in q.predicates;
  }

  // ---- Keys ------------------------------------------------------------------------------

  /** A key without dots names a frontmatter key; a dotted one leads into a
      nested mapping. */
  lemma DottedKeys(fm: Frontmatter, head: string, rest: string)
    requires '.' !in head
    ensures LookupDotted(fm, head) == if head in fm then Some(fm[head]) else None
    ensures LookupDotted(fm, head + "." + rest)
         == if head in fm && fm[head].Mapping? then LookupDotted(fm[head].fields, rest) else None
  {
    SplitNone(head, '.');
    SplitConcat(head, rest, '.');
    var parts := Split(rest, '.');
    assert Split(head + "." + rest, '.') == [head] + parts;
    assert ([head] + parts)[1..] == parts && ([head] + parts)[0] == head;
  }

  // ---- Paths -----------------------------------------------------------------------------

  lemma OneSegment(s: string)
    ensures '/' !in s <==> |Segments(s)| == 1
  {
    if '/' !in s { SplitNone(s, '/'); }
    if |Segments(s)| == 1 {
      SplitFree(s, '/');
      PathOfSegments(s);
      assert Segments(s) == [Segments(s)[0]];
    }
  }

  lemma BelowSegments(path: string, prefix: string)
    requires ValidPath(prefix) && prefix + "/" <= path
    ensures Segments(path) == Segments(prefix) + Segments(path[|prefix| + 1..])
  {
    assert path == prefix + ['/'] + path[|prefix| + 1..];
    SplitConcat(prefix, path[|prefix| + 1..], '/');
  }

  /** `__anw-path` asks component by component: the note of that name and
      those inside the folder, at any depth or, not recursively, directly. */
  lemma ScopeMeans(path: string, prefix: string, recursive: bool)
    requires ValidPath(path) && ValidPath(prefix)
    ensures PathMatches(path, prefix, recursive)
       <==> Segments(prefix) <= Segments(path) && (recursive || |Segments(path)| <= |Segments(prefix)| + 1)
  {
    UnderIsProperPrefix(path, prefix);
    LastNotSlash(prefix);
    if prefix + "/" <= path {
      BelowSegments(path, prefix);
      OneSegment(path[|prefix| + 1..]);
    } else {
      PathOfSegments(prefix);
      PathOfSegments(path);
      assert Segments(prefix) <= Segments(path) ==> Segments(prefix) == Segments(path);
    }
  }

  /** Without a path, the whole vault or its top level. */
  lemma WholeScope(path: string, recursive: bool)
    ensures PathMatches(path, [], recursive) <==> recursive || |Segments(path)| == 1
  {
    OneSegment(path);
  }

  /** A result carries what the store holds for its path. */
  lemma ResultsCarryNotes(m: NoteMap, keys: seq<string>, i: nat)
    requires (forall k <- keys :: k in m) && i < |keys| && keys[i] in keys
    ensures |EntriesOf(m, keys)| == |keys|
    ensures var n, e := m[keys[i]], EntriesOf(m, keys)[i];
            && e.path == n.path && e.frontmatter == n.frontmatter
            && e.lastModified == n.lastModified && e.etag == n.etag && e.size == n.size
  {
  }

  // ---- Equality and presence -----------------------------------------------------------------

  /** `field=value`: a scalar that prints as the value, or a list that holds one. */
  lemma EqualityMeans(env: Env, m: NoteMap, field: string, value: string, k: string)
    requires k in m
    ensures k in Answers(env, m, field, Eq, value)
       <==> && Held(m, k, field).Some?
            && match Held(m, k, field).value
               case Sequence(items) => exists v <- items :: PlainPrints(env, v, value)
               case Mapping(_) => false
               case _ => CanonicalString(env, Held(m, k, field).value) == value
  {
    AnswersExactly(env, m, field, Eq, value, k);
    if Held(m, k, field).Some? {
      var v := Held(m, k, field).value;
      if v.Sequence? {
        forall w ensures MatchesScalar(w, value) <==> PlainPrints(env, w, value) { ScalarMeans(env, w, value); }
      } else {
        ScalarMeans(env, v, value);
      }
    }
  }

  /** A value that is neither a list nor a mapping and prints so. */
  predicate PlainPrints(env: Env, v: Value, text: string) {
    !v.Sequence? && !v.Mapping? && CanonicalString(env, v) == text
  }

  lemma ScalarMeans(env: Env, v: Value, needle: string)
    ensures MatchesScalar(v, needle) <==> PlainPrints(env, v, needle)
  {
  }

  /** `field__not=value` is everything `field=value` is not. */
  lemma NotIsComplement(env: Env, m: NoteMap, field: string, value: string)
    ensures Answers(env, m, field, Not, value) == m.Keys - Answers(env, m, field, Eq, value)
  {
    forall k | k in m
      ensures k in Answers(env, m, field, Not, value) <==> k !in Answers(env, m, field, Eq, value)
    {
      AnswersExactly(env, m, field, Not, value, k);
      AnswersExactly(env, m, field, Eq, value, k);
    }
  }

  /** `field__exists=true` is every note with the key, `false` every other. */
  lemma ExistsMeans(env: Env, m: NoteMap, field: string)
    ensures Answers(env, m, field, Exists, "true") == set k | k in m && Held(m, k, field).Some?
    ensures Answers(env, m, field, Exists, "false") == set k | k in m && Held(m, k, field).None?
  {
    forall k | k in m ensures k in Answers(env, m, field, Exists, "true") <==> Held(m, k, field).Some? {
      PresenceOf(env, m, field, "true", k);
    }
    forall k | k in m ensures k in Answers(env, m, field, Exists, "false") <==> Held(m, k, field).None? {
      PresenceOf(env, m, field, "false", k);
    }
  }

  lemma PresenceOf(env: Env, m: NoteMap, field: string, value: string, k: string)
    requires k in m
    ensures k in Answers(env, m, field, Exists, value) <==> Held(m, k, field).Some? == (value == "true")
  {
    AnswersExactly(env, m, field, Exists, value, k);
  }

  // ---- Lists of values -------------------------------------------------------------------------

  predicate IsBlank(c: char) {
    c as int == 32 || 9 <= c as int <= 13
  }

  /** Nothing to trim at either end. */
  predicate Tidy(s: string) {
    s == [] || (!IsBlank(s[0]) && !IsBlank(s[|s| - 1]))
  }

  lemma {:induction false} LeftTrims(blanks: string, s: string)
    requires (forall c <- blanks :: IsBlank(c)) && (s == [] || !IsBlank(s[0]))
    ensures TrimLeft(blanks + s) == s
  {
    if blanks == [] {
      assert blanks + s == s;
    } else {
      assert (blanks + s)[1..] == blanks[1..] + s && (blanks + s)[0] == blanks[0] && blanks[0] in blanks;
      LeftTrims(blanks[1..], s);
    }
  }

  lemma {:induction false} RightTrims(s: string, blanks: string)
    requires (forall c <- blanks :: IsBlank(c)) && Tidy(s)
    ensures TrimRight(s + blanks) == s
  {
    if blanks == [] {
      assert s + blanks == s;
    } else {
      var last := blanks[|blanks| - 1];
      assert (s + blanks)[..|s + blanks| - 1] == s + blanks[..|blanks| - 1];
      assert (s + blanks)[|s + blanks| - 1] == last && last in blanks;
      RightTrims(s, blanks[..|blanks| - 1]);
    }
  }

  /** Blanks around a part are dropped, blanks inside it are kept. */
  lemma PartsAreTrimmed(left: string, s: string, right: string)
    requires (forall c <- left :: IsBlank(c)) && (forall c <- right :: IsBlank(c)) && Tidy(s)
    ensures TrimRight(TrimLeft(left + s + right)) == s
  {
    assert left + s + right == left + (s + right);
    if s == [] {
      AllBlank(left + right);
      assert left + s + right == left + right;
    } else {
      LeftTrims(left, s + right);
      RightTrims(s, right);
    }
  }

  lemma {:induction false} AllBlank(s: string)
    requires forall c <- s :: IsBlank(c)
    ensures TrimLeft(s) == []
  {
    if s != [] {
      assert s[0] in s;
      AllBlank(s[1..]);
    }
  }

  /** One item of a list as it is written, with blanks around its word. */
  datatype Part = Part(left: string, word: string, right: string) {
    function Text(): string {
      left + word + right
    }

    predicate Proper() {
      Tidy(word) && ',' !in word && (forall c <- left :: IsBlank(c)) && (forall c <- right :: IsBlank(c))
    }
  }

  /** The parts with commas between them. */
  function Listed(parts: seq<Part>): string
    requires parts != []
  {
    Join(seq(|parts|, i requires 0 <= i < |parts| => parts[i].Text()), ',')
  }

  /** A list is read as its words, in order. */
  lemma WordsRead(parts: seq<Part>)
    requires parts != [] && forall part <- parts :: part.Proper()
    ensures |CommaList(Listed(parts))| == |parts|
    ensures forall i | 0 <= i < |parts| :: CommaList(Listed(parts))[i] == parts[i].word
  {
    var texts := seq(|parts|, i requires 0 <= i < |parts| => parts[i].Text());
    forall i | 0 <= i < |parts| ensures ',' !in texts[i] && TrimRight(TrimLeft(texts[i])) == parts[i].word {
      var part := parts[i];
      assert part in parts && texts[i] == part.left + part.word + part.right;
      PartsAreTrimmed(part.left, part.word, part.right);
    }
    SplitJoin(texts, ',');
  }

  lemma WordsAreRead(parts: seq<Part>)
    requires parts != [] && forall part <- parts :: part.Proper()
    ensures forall part <- parts :: part.word in CommaList(Listed(parts))
    ensures forall n <- CommaList(Listed(parts)) :: exists part <- parts :: part.word == n
  {
    WordsRead(parts);
    forall part <- parts ensures part.word in CommaList(Listed(parts)) {
      var i :| 0 <= i < |parts| && parts[i] == part;
      assert CommaList(Listed(parts))[i] == part.word;
    }
    forall n <- CommaList(Listed(parts)) ensures exists part <- parts :: part.word == n {
      var i :| 0 <= i < |parts| && CommaList(Listed(parts))[i] == n;
      assert parts[i] in parts && parts[i].word == n;
    }
  }

  lemma EqualTo(env: Env, m: NoteMap, field: string, value: string, k: string)
    requires k in m
    ensures k in Answers(env, m, field, Eq, value)
       <==> Held(m, k, field).Some? && MatchesEq(Held(m, k, field).value, value)
  {
    AnswersExactly(env, m, field, Eq, value, k);
  }

  /** `field__in=a,b,…` is the union of `field=a`, `field=b`, …, whatever the
      blanks around the words. */
  lemma InIsUnion(env: Env, m: NoteMap, field: string, parts: seq<Part>, k: string)
    requires parts != [] && forall part <- parts :: part.Proper()
    requires k in m
    ensures k in Answers(env, m, field, In, Listed(parts))
       <==> exists part <- parts :: k in Answers(env, m, field, Eq, part.word)
  {
    WordsAreRead(parts);
    AnswersExactly(env, m, field, In, Listed(parts), k);
    forall part ensures k in Answers(env, m, field, Eq, part)
                   <==> Held(m, k, field).Some? && MatchesEq(Held(m, k, field).value, part) {
      EqualTo(env, m, field, part, k);
    }
  }

  /** `field__all=a,b,…` is the lists among the intersection of `field=a`,
      `field=b`, … */
  lemma AllIsIntersection(env: Env, m: NoteMap, field: string, parts: seq<Part>, k: string)
    requires parts != [] && forall part <- parts :: part.Proper()
    requires k in m
    ensures k in Answers(env, m, field, All, Listed(parts))
       <==> && Held(m, k, field).Some? && Held(m, k, field).value.Sequence?
            && forall part <- parts :: k in Answers(env, m, field, Eq, part.word)
  {
    WordsAreRead(parts);
    AnswersExactly(env, m, field, All, Listed(parts), k);
    forall part ensures k in Answers(env, m, field, Eq, part)
                   <==> Held(m, k, field).Some? && MatchesEq(Held(m, k, field).value, part) {
      EqualTo(env, m, field, part, k);
    }
  }

  // ---- Strings ------------------------------------------------------------------------------------

  /** `field__prefix=value`: strings that begin with the value. */
  lemma PrefixMeans(env: Env, m: NoteMap, field: string, value: string, k: string)
    requires k in m
    ensures k in Answers(env, m, field, Prefix, value)
       <==> exists rest :: Held(m, k, field) == Some(Str(value + rest))
  {
    AnswersExactly(env, m, field, Prefix, value, k);
    if Held(m, k, field).Some? && Held(m, k, field).value.Str? && value <= Held(m, k, field).value.s {
      var s := Held(m, k, field).value.s;
      assert s == value + s[|value|..];
      assert Held(m, k, field) == Some(Str(value + s[|value|..]));
    }
  }

  /** `field__regex=value`: strings a valid expression accepts. */
  lemma RegexMeans(env: Env, m: NoteMap, field: string, value: string, k: string)
    requires k in m
    ensures k in Answers(env, m, field, Regex, value)
       <==> exists s :: Held(m, k, field) == Some(Str(s)) && env.regexError(value).None? && env.regexMatch(value, s)
  {
    AnswersExactly(env, m, field, Regex, value, k);
    if k in Answers(env, m, field, Regex, value) {
      assert Held(m, k, field) == Some(Str(Held(m, k, field).value.s));
    }
  }

  // ---- Ranges --------------------------------------------------------------------------------------

  /** What lies after, not before, before, and not after the given point. */
  predicate InRange(op: Operator, before: bool, after: bool) {
    match op
    case Gt => after
    case Gte => !before
    case Lt => before
    case Lte => !after
    case _ => false
  }

  /** The four range operators ask for just that. */
  ghost predicate RangeIs(env: Env, m: NoteMap, field: string, value: string, k: string, before: bool, after: bool)
    requires k in m
  {
    forall op | op in {Gt, Gte, Lt, Lte} ::
      k in Answers(env, m, field, op, value) <==> InRange(op, before, after)
  }

  /** The value compares with the needle as `o`, on every range operator. */
  ghost predicate ComparesAs(env: Env, v: Value, value: string, o: Ordering) {
    forall op | op in {Gt, Gte, Lt, Lte} ::
      OrderedCompare(env, v, value, op) == InRange(op, o.Less?, o.Greater?)
  }

  lemma RangeFrom(env: Env, m: NoteMap, field: string, value: string, k: string, v: Value, o: Ordering)
    requires k in m && Held(m, k, field) == Some(v) && ComparesAs(env, v, value, o)
    ensures RangeIs(env, m, field, value, k, o.Less?, o.Greater?)
  {
    forall op | op in {Gt, Gte, Lt, Lte}
      ensures k in Answers(env, m, field, op, value) <==> InRange(op, o.Less?, o.Greater?)
    {
      RangeStep(env, m, field, value, k, op, v);
    }
  }

  lemma RangeStep(env: Env, m: NoteMap, field: string, value: string, k: string, op: Operator, v: Value)
    requires k in m && Held(m, k, field) == Some(v) && op in {Gt, Gte, Lt, Lte}
    ensures k in Answers(env, m, field, op, value) <==> OrderedCompare(env, v, value, op)
  {
    AnswersExactly(env, m, field, op, value, k);
  }

  const I64_MAX: int := 0x7FFF_FFFF_FFFF_FFFF

  /** A printed integer reads as itself if it has at most 64 bits, and does
      not read as an integer otherwise. */
  lemma ParsePrintedInt(n: int)
    ensures ParseI64(IntText(n)) == if -I64_MAX - 1 <= n <= I64_MAX then Some(n) else None
  {
    var a := if n < 0 then -n else n;
    NatTextValue(a);
    assert '0' <= NatText(a)[0] <= '9';
    if n < 0 { assert ("-" + NatText(a))[1..] == NatText(a); }
  }

  /** Integers by value. */
  lemma RangeOfInts(env: Env, m: NoteMap, field: string, k: string, i: int, n: int)
    requires k in m && Held(m, k, field) == Some(Int(i)) && -I64_MAX - 1 <= n <= I64_MAX
    ensures RangeIs(env, m, field, IntText(n), k, i < n, i > n)
  {
    ParsePrintedInt(n);
    RangeFrom(env, m, field, IntText(n), k, Int(i), CompareInt(i, n));
  }

  /** One calendar date is before another. */
  predicate Earlier(a: Date, b: Date) {
    a.year < b.year || (a.year == b.year && (a.month < b.month || (a.month == b.month && a.day < b.day)))
  }

  /** Dates by the calendar, if the value reads as a date. */
  lemma RangeOfDates(env: Env, m: NoteMap, field: string, value: string, k: string, d: Date, e: Date)
    requires k in m && Held(m, k, field) == Some(DateOnly(d)) && env.parseDate(value) == Some(e)
    ensures RangeIs(env, m, field, value, k, Earlier(d, e), Earlier(e, d))
  {
    RangeFrom(env, m, field, value, k, DateOnly(d), CompareDate(d, e));
  }

  /** One point in time is before another. */
  predicate Sooner(a: Instant, b: Instant) {
    Earlier(a.date, b.date)
    || (a.date == b.date && (a.second < b.second || (a.second == b.second && a.nanos < b.nanos)))
  }

  /** Datetimes by the clock, fractions of a second included. */
  lemma RangeOfInstants(env: Env, m: NoteMap, field: string, value: string, k: string, a: Instant, b: Instant)
    requires k in m && Held(m, k, field) == Some(DateTime(a)) && env.parseInstant(value) == Some(b)
    ensures RangeIs(env, m, field, value, k, Sooner(a, b), Sooner(b, a))
  {
    RangeFrom(env, m, field, value, k, DateTime(a), CompareInstant(a, b));
  }

  /** Floats by value; an infinity is beyond every finite one. */
  predicate Smaller(x: F64, y: F64) {
    match (x, y)
    case (Finite(a), Finite(b)) => a < b
    case (NegInf, Finite(_)) => true
    case (NegInf, PosInf) => true
    case (Finite(_), PosInf) => true
    case _ => false
  }

  /** NaN is neither before nor after anything, so the operators that allow
      equality accept it. */
  lemma RangeOfFloats(env: Env, m: NoteMap, field: string, value: string, k: string, x: F64, text: string, y: F64)
    requires k in m && Held(m, k, field) == Some(Float(x, text)) && env.parseFloat(value) == Some(y)
    ensures RangeIs(env, m, field, value, k, Smaller(x, y), Smaller(y, x))
  {
    FloatsMean(x, y);
    FloatCompares(env, x, text, value, y);
    RangeFrom(env, m, field, value, k, Float(x, text), FloatOrder(x, y));
  }

  function FloatOrder(x: F64, y: F64): Ordering {
    match PartialCmp(x, y)
    case Some(o) => o
    case None => Equal
  }

  lemma FloatsMean(x: F64, y: F64)
    ensures FloatOrder(x, y).Less? <==> Smaller(x, y)
    ensures FloatOrder(x, y).Greater? <==> Smaller(y, x)
  {
  }

  lemma FloatCompares(env: Env, x: F64, text: string, value: string, y: F64)
    requires env.parseFloat(value) == Some(y)
    ensures ComparesAs(env, Float(x, text), value, FloatOrder(x, y))
  {
  }

  lemma IntAsFloat(env: Env, i: int, value: string, y: F64)
    requires -TWO53 <= i <= TWO53 && ParseI64(value).None? && env.parseFloat(value) == Some(y)
    ensures ComparesAs(env, Int(i), value, FloatOrder(Finite(i as real), y))
  {
    SmallIsExact(i);
    assert TryFloat(Int(i)) == Some(Finite(i as real));
  }

  /** An integer meets a needle that only reads as a float as a float. */
  lemma RangeOfIntAndFloat(env: Env, m: NoteMap, field: string, value: string, k: string, i: int, y: F64)
    requires k in m && Held(m, k, field) == Some(Int(i)) && -TWO53 <= i <= TWO53
    requires ParseI64(value).None? && env.parseFloat(value) == Some(y)
    ensures RangeIs(env, m, field, value, k, Smaller(Finite(i as real), y), Smaller(y, Finite(i as real)))
  {
    FloatsMean(Finite(i as real), y);
    IntAsFloat(env, i, value, y);
    RangeFrom(env, m, field, value, k, Int(i), FloatOrder(Finite(i as real), y));
  }

  /** Strings byte by byte, whatever the value looks like. */
  lemma RangeOfStrings(env: Env, m: NoteMap, field: string, value: string, k: string, s: string)
    requires k in m && Held(m, k, field) == Some(Str(s))
    ensures RangeIs(env, m, field, value, k, Before(s, value), Before(value, s))
  {
    RangeFrom(env, m, field, value, k, Str(s), Compare(s, value));
    BeforeExactly(s, value);
    BeforeExactly(value, s);
    CompareReverse(s, value);
  }

  /** The texts part at some byte where the first has less, or the first is
      a proper beginning of the second. */
  ghost predicate Before(a: string, b: string) {
    a < b || exists i :: 0 <= i < |a| && i < |b| && a[..i] == b[..i] && a[i] < b[i]
  }

  lemma {:induction false} BeforeExactly(a: string, b: string)
    ensures Compare(a, b).Less? <==> Before(a, b)
  {
    if a != [] && b != [] && a[0] == b[0] {
      BeforeExactly(a[1..], b[1..]);
      assert a == [a[0]] + a[1..] && b == [b[0]] + b[1..];
      if i :| 0 <= i < |a[1..]| && i < |b[1..]| && a[1..][..i] == b[1..][..i] && a[1..][i] < b[1..][i] {
        assert a[..i + 1] == [a[0]] + a[1..][..i] && b[..i + 1] == [b[0]] + b[1..][..i];
        assert a[i + 1] < b[i + 1];
      }
      if i :| 0 <= i < |a| && i < |b| && a[..i] == b[..i] && a[i] < b[i] {
        assert a[1..][..i - 1] == a[..i][1..] && b[1..][..i - 1] == b[..i][1..];
        assert a[1..][i - 1] < b[1..][i - 1];
      }
    } else if a != [] && b != [] {
      assert a[..0] == b[..0];
      forall i | 0 < i < |a| && i < |b| ensures a[..i] != b[..i] { assert a[..i][0] != b[..i][0]; }
    }
  }

  /** Nothing else lies in any range: a missing key, null, booleans, lists,
      mappings, and dates, datetimes and numbers against a value that does not
      read as one. */
  lemma RangeOfOthers(env: Env, m: NoteMap, field: string, value: string, k: string, op: Operator)
    requires k in m && op in {Gt, Gte, Lt, Lte}
    requires match Held(m, k, field)
             case None => true
             case Some(Str(_)) => false
             case Some(Int(_)) => ParseI64(value).None? && env.parseFloat(value).None?
             case Some(Float(_, _)) => env.parseFloat(value).None?
             case Some(DateOnly(_)) => env.parseDate(value).None?
             case Some(DateTime(_)) => env.parseInstant(value).None?
             case _ => true
    ensures k !in Answers(env, m, field, op, value)
  {
    AnswersExactly(env, m, field, op, value, k);
  }
}
