/** Printing frontmatter values and comparing them. */
module Values {
  import opened Text
  import opened Notes
  import opened Encoding
  import opened Query

  // ---- Dates and times as text -------------------------------------------------------

  /** A number in `width` digits, leading zeros included. */
  function Pad(n: nat, width: nat): string {
    if width == 0 then [] else Pad(n / 10, width - 1) + [Digit(n % 10)]
  }

  function Power10(k: nat): nat {
    if k == 0 then 1 else 10 * Power10(k - 1)
  }

  function YearText(y: int): string {
    if 0 <= y <= 9999 then Pad(y, 4)
    else
      var a := if y < 0 then -y else y;
      (if y < 0 then "-" else "+") + if a <= 9999 then Pad(a, 4) else NatText(a)
  }

  /** `%Y-%m-%d`. */
  function DateText(d: Date): string {
    YearText(d.year) + "-" + Pad(d.month, 2) + "-" + Pad(d.day, 2)
  }

  const BILLION := 1_000_000_000

  function ClockText(at: Instant): string {
    Pad(at.second / 3600, 2) + ":" + Pad(at.second / 60 % 60, 2) + ":"
    + Pad(at.second % 60 + at.nanos / BILLION, 2) + "Z"
  }

  /** RFC 3339 to the second, with a `Z`. */
  function InstantText(at: Instant): string {
    DateText(at.date) + ['T'] + ClockText(at)
  }

  predicate ValidDate(d: Date) {
    1 <= d.month <= 12 && 1 <= d.day <= 31
  }

  /** A leap second occurs only as the last second of a minute. */
  predicate ValidInstant(at: Instant) {
    && ValidDate(at.date) && at.second < 86400 && at.nanos < 2 * BILLION
    && (at.nanos >= BILLION ==> at.second % 60 == 59)
  }

  predicate FourDigitYear(d: Date) {
    ValidDate(d) && 0 <= d.year <= 9999
  }

  function CompareDate(a: Date, b: Date): Ordering {
    CompareInt(a.year, b.year).Then(CompareInt(a.month, b.month)).Then(CompareInt(a.day, b.day))
  }

  function CompareInstant(a: Instant, b: Instant): Ordering {
    CompareDate(a.date, b.date).Then(CompareInt(a.second, b.second)).Then(CompareInt(a.nanos, b.nanos))
  }

  // ---- Floats --------------------------------------------------------------------------

  const TWO53: int := 0x20_0000_0000_0000

  /** The spacing of the floats around an integer of at least 2^53. */
  function Spacing(m: nat): (u: nat)
    ensures u >= 1
  {
    if m < TWO53 then 1 else 2 * Spacing(m / 2)
  }

  /** `i as f64`: exact up to 2^53, rounded to nearest, ties to even, beyond. */
  function ToF64(i: int): real {
    var m := if i < 0 then -i else i;
    var u := Spacing(m);
    var q, r := m / u, m % u;
    var rounded := if 2 * r > u || (2 * r == u && q % 2 == 1) then (q + 1) * u else q * u;
    (if i < 0 then -rounded else rounded) as real
  }

  /** `partial_cmp` on floats. */
  function PartialCmp(x: F64, y: F64): Option<Ordering> {
    if x.NaN? || y.NaN? then None
    else if x == y then Some(Equal)
    else if x.NegInf? || y.PosInf? then Some(Less)
    else if x.PosInf? || y.NegInf? then Some(Greater)
    else if x.r < y.r then Some(Less) else Some(Greater)
  }

  // ---- The coercion ladder ---------------------------------------------------------------

  function TryDate(v: Value): Option<Date> {
    if v.DateOnly? then Some(v.d) else None
  }

  function TryInstant(v: Value): Option<Instant> {
    if v.DateTime? then Some(v.at) else None
  }

  function TryInt(v: Value): Option<int> {
    if v.Int? then Some(v.i) else None
  }

  function TryFloat(v: Value): Option<F64> {
    match v
    case Float(f, _) => Some(f)
    case Int(i) => Some(Finite(ToF64(i)))
    case _ => None
  }

  function CanonicalString(env: Env, v: Value): string {
    match v
    case Null => "null"
    case Bool(b) => if b then "true" else "false"
    case Int(i) => IntText(i)
    case Float(_, text) => text
    case Str(s) => s
    case DateOnly(d) => DateText(d)
    case DateTime(at) => InstantText(at)
    case Sequence(_) => env.debug(v)
    case Mapping(_) => env.debug(v)
  }

  function CompareValues(env: Env, a: Value, b: Value): Ordering {
    if TryDate(a).Some? && TryDate(b).Some? then CompareDate(TryDate(a).value, TryDate(b).value)
    else if TryInstant(a).Some? && TryInstant(b).Some? then CompareInstant(TryInstant(a).value, TryInstant(b).value)
    else if TryInt(a).Some? && TryInt(b).Some? then CompareInt(TryInt(a).value, TryInt(b).value)
    else if TryFloat(a).Some? && TryFloat(b).Some? then
      match PartialCmp(TryFloat(a).value, TryFloat(b).value)
      case Some(o) => o
      case None => Equal
    else Compare(CanonicalString(env, a), CanonicalString(env, b))
  }

  // ---- Text order is date order ----------------------------------------------------------

  lemma {:induction false} PadLength(n: nat, width: nat)
    ensures |Pad(n, width)| == width
  {
    if width > 0 { PadLength(n / 10, width - 1); }
  }

  lemma {:induction false} PadOrder(a: nat, b: nat, width: nat)
    requires a < Power10(width) && b < Power10(width)
    ensures Compare(Pad(a, width), Pad(b, width)) == CompareInt(a, b)
  {
    if width > 0 {
      PadOrder(a / 10, b / 10, width - 1);
      PadLength(a / 10, width - 1);
      PadLength(b / 10, width - 1);
      CompareConcat(Pad(a / 10, width - 1), Pad(b / 10, width - 1), [Digit(a % 10)], [Digit(b % 10)]);
      assert Compare([Digit(a % 10)], [Digit(b % 10)]) == CompareInt(a % 10, b % 10) by {
        assert [Digit(a % 10)][1..] == [Digit(b % 10)][1..];
      }
    }
  }

  lemma PadOrder2(a: nat, b: nat)
    requires a < 100 && b < 100
    ensures |Pad(a, 2)| == |Pad(b, 2)| == 2 && Compare(Pad(a, 2), Pad(b, 2)) == CompareInt(a, b)
  {
    assert Power10(1) == 10 && Power10(2) == 100;
    PadOrder(a, b, 2);
    PadLength(a, 2);
    PadLength(b, 2);
  }

  /** A shared separator decides nothing. */
  lemma CompareSeparated(a: string, b: string, sep: char, c: string, d: string)
    requires |a| == |b|
    ensures Compare(a + [sep] + c, b + [sep] + d) == Compare(a, b).Then(Compare(c, d))
  {
    assert a + [sep] + c == a + ([sep] + c) && b + [sep] + d == b + ([sep] + d);
    CompareConcat(a, b, [sep] + c, [sep] + d);
    assert ([sep] + c)[1..] == c && ([sep] + d)[1..] == d;
  }

  lemma DateTextOrder(a: Date, b: Date)
    requires FourDigitYear(a) && FourDigitYear(b)
    ensures |DateText(a)| == |DateText(b)| == 10
    ensures Compare(DateText(a), DateText(b)) == CompareDate(a, b)
  {
    var ya, yb := Pad(a.year, 4), Pad(b.year, 4);
    assert Power10(2) == 100 && Power10(3) == 1000 && Power10(4) == 10000;
    PadOrder(a.year, b.year, 4);
    PadLength(a.year, 4);
    PadLength(b.year, 4);
    PadOrder2(a.month, b.month);
    PadOrder2(a.day, b.day);
    CompareSeparated(ya + "-" + Pad(a.month, 2), yb + "-" + Pad(b.month, 2), '-', Pad(a.day, 2), Pad(b.day, 2));
    CompareSeparated(ya, yb, '-', Pad(a.month, 2), Pad(b.month, 2));
  }

  /** The instant to the second, a leap second counting as one. */
  function WholeSecond(at: Instant): Instant {
    at.(nanos := at.nanos / BILLION * BILLION)
  }

  lemma TimeOrder(a: Instant, b: Instant)
    requires ValidInstant(a) && ValidInstant(b)
    ensures CompareInt(a.second / 3600, b.second / 3600)
              .Then(CompareInt(a.second / 60 % 60, b.second / 60 % 60))
              .Then(CompareInt(a.second % 60 + a.nanos / BILLION, b.second % 60 + b.nanos / BILLION))
         == CompareInt(a.second, b.second).Then(CompareInt(WholeSecond(a).nanos, WholeSecond(b).nanos))
  {
    assert a.nanos / BILLION <= 1 && b.nanos / BILLION <= 1;
    var ha, ma, sa := a.second / 3600, a.second / 60 % 60, a.second % 60;
    var hb, mb, sb := b.second / 3600, b.second / 60 % 60, b.second % 60;
    assert a.second == 3600 * ha + 60 * ma + sa;
    assert b.second == 3600 * hb + 60 * mb + sb;
  }

  lemma ClockBounds(at: Instant)
    requires ValidInstant(at)
    ensures at.second / 3600 < 100 && at.second / 60 % 60 < 100 && at.second % 60 + at.nanos / BILLION < 100
  {
  }

  lemma SameEnding(x: string, y: string)
    requires |x| == |y|
    ensures Compare(x + "Z", y + "Z") == Compare(x, y)
  {
    CompareConcat(x, y, "Z", "Z");
    CompareEqual("Z", "Z");
  }

  lemma ClockOrder(ha: string, hb: string, ma: string, mb: string, sa: string, sb: string)
    requires |ha| == |hb| && |ma| == |mb| && |sa| == |sb|
    ensures Compare(ha + ":" + ma + ":" + sa, hb + ":" + mb + ":" + sb)
         == Compare(ha, hb).Then(Compare(ma, mb)).Then(Compare(sa, sb))
  {
    CompareSeparated(ha, hb, ':', ma, mb);
    CompareSeparated(ha + ":" + ma, hb + ":" + mb, ':', sa, sb);
  }

  lemma EndedClockOrder(ha: string, hb: string, ma: string, mb: string, sa: string, sb: string)
    requires |ha| == |hb| && |ma| == |mb| && |sa| == |sb|
    ensures Compare(ha + ":" + ma + ":" + sa + "Z", hb + ":" + mb + ":" + sb + "Z")
         == Compare(ha, hb).Then(Compare(ma, mb)).Then(Compare(sa, sb))
  {
    ClockOrder(ha, hb, ma, mb, sa, sb);
    SameEnding(ha + ":" + ma + ":" + sa, hb + ":" + mb + ":" + sb);
  }

  lemma PaddedOrder(ha: nat, hb: nat, ma: nat, mb: nat, sa: nat, sb: nat)
    requires ha < 100 && hb < 100 && ma < 100 && mb < 100 && sa < 100 && sb < 100
    ensures Compare(Pad(ha, 2) + ":" + Pad(ma, 2) + ":" + Pad(sa, 2) + "Z",
                    Pad(hb, 2) + ":" + Pad(mb, 2) + ":" + Pad(sb, 2) + "Z")
         == CompareInt(ha, hb).Then(CompareInt(ma, mb)).Then(CompareInt(sa, sb))
  {
    PadOrder2(ha, hb);
    PadOrder2(ma, mb);
    PadOrder2(sa, sb);
    EndedClockOrder(Pad(ha, 2), Pad(hb, 2), Pad(ma, 2), Pad(mb, 2), Pad(sa, 2), Pad(sb, 2));
  }

  lemma ClockTextOrder(a: Instant, b: Instant)
    requires ValidInstant(a) && ValidInstant(b)
    ensures Compare(ClockText(a), ClockText(b))
         == CompareInt(a.second, b.second).Then(CompareInt(WholeSecond(a).nanos, WholeSecond(b).nanos))
  {
    ClockBounds(a);
    ClockBounds(b);
    PaddedOrder(a.second / 3600, b.second / 3600, a.second / 60 % 60, b.second / 60 % 60,
                a.second % 60 + a.nanos / BILLION, b.second % 60 + b.nanos / BILLION);
    TimeOrder(a, b);
  }

  /** The printed instants are ordered as the instants to the second. */
  lemma InstantTextOrder(a: Instant, b: Instant)
    requires ValidInstant(a) && FourDigitYear(a.date) && ValidInstant(b) && FourDigitYear(b.date)
    ensures Compare(InstantText(a), InstantText(b)) == CompareInstant(WholeSecond(a), WholeSecond(b))
  {
    DateTextOrder(a.date, b.date);
    ClockTextOrder(a, b);
    CompareSeparated(DateText(a.date), DateText(b.date), 'T', ClockText(a), ClockText(b));
  }

  /** No number, no year outside four digits, no fraction of a second. */
  predicate Textual(v: Value) {
    match v
    case Int(_) => false
    case Float(_, _) => false
    case DateOnly(d) => FourDigitYear(d)
    case DateTime(at) => ValidInstant(at) && FourDigitYear(at.date) && at.nanos % BILLION == 0
    case _ => true
  }

  /** Off numbers the coercion ladder is the order of the printed texts. */
  lemma LadderIsTextOrder(env: Env, a: Value, b: Value)
    requires Textual(a) && Textual(b)
    ensures CompareValues(env, a, b) == Compare(CanonicalString(env, a), CanonicalString(env, b))
  {
    if a.DateOnly? && b.DateOnly? {
      DateTextOrder(a.d, b.d);
    } else if a.DateTime? && b.DateTime? {
      InstantTextOrder(a.at, b.at);
      assert WholeSecond(a.at) == a.at && WholeSecond(b.at) == b.at;
    }
  }

  lemma WholeSecondOrder(a: Instant, b: Instant)
    requires ValidInstant(a) && ValidInstant(b)
    ensures CompareInstant(a, b) == CompareInstant(WholeSecond(a), WholeSecond(b))
       <==> WholeSecond(a) != WholeSecond(b) || a.nanos == b.nanos
  {
  }

  /** With fractions of a second the two orders agree exactly on pairs that
      differ to the second or not at all in their nanoseconds. */
  lemma FractionsAgreeExactly(env: Env, a: Instant, b: Instant)
    requires ValidInstant(a) && FourDigitYear(a.date) && ValidInstant(b) && FourDigitYear(b.date)
    ensures CompareValues(env, DateTime(a), DateTime(b)) == Compare(InstantText(a), InstantText(b))
       <==> WholeSecond(a) != WholeSecond(b) || a.nanos == b.nanos
  {
    InstantTextOrder(a, b);
    WholeSecondOrder(a, b);
  }

  // ---- Where the comparator is an order ------------------------------------------------------

  predicate AtMostValue(env: Env, a: Value, b: Value) {
    !CompareValues(env, a, b).Greater?
  }

  /** Comparing is a total preorder on these values. */
  ghost predicate Lawful(env: Env, vs: set<Value>) {
    && (forall a, b | a in vs && b in vs :: CompareValues(env, b, a) == CompareValues(env, a, b).Reverse())
    && (forall a, b, c | a in vs && b in vs && c in vs && AtMostValue(env, a, b) && AtMostValue(env, b, c) ::
          AtMostValue(env, a, c))
  }

  /** Integers within 2^53 and floats other than NaN. */
  predicate Numeric(v: Value) {
    (v.Int? && -TWO53 <= v.i <= TWO53) || (v.Float? && !v.f.NaN?)
  }

  predicate Uniform(vs: set<Value>) {
    || (forall v <- vs :: Numeric(v))
    || (forall v <- vs :: v.Int?)
    || (forall v <- vs :: Textual(v))
    || (forall v <- vs :: v.DateOnly?)
    || (forall v <- vs :: v.DateTime?)
  }

  lemma SmallIsExact(i: int)
    requires -TWO53 <= i <= TWO53
    ensures ToF64(i) == i as real
  {
    if i == TWO53 || i == -TWO53 {
      assert Spacing(TWO53) == 2 * Spacing(TWO53 / 2);
      assert Spacing(TWO53 / 2) == 1;
    }
  }

  lemma NumbersByValue(env: Env, a: Value, b: Value)
    requires Numeric(a) && Numeric(b)
    ensures PartialCmp(TryFloat(a).value, TryFloat(b).value) == Some(CompareValues(env, a, b))
  {
    if a.Int? { SmallIsExact(a.i); }
    if b.Int? { SmallIsExact(b.i); }
  }

  lemma TextsByText(env: Env, vs: set<Value>)
    requires forall v <- vs :: Textual(v)
    ensures Lawful(env, vs)
  {
    forall a, b | a in vs && b in vs ensures CompareValues(env, b, a) == CompareValues(env, a, b).Reverse() {
      LadderIsTextOrder(env, a, b);
      LadderIsTextOrder(env, b, a);
      CompareReverse(CanonicalString(env, a), CanonicalString(env, b));
    }
    forall a, b, c | a in vs && b in vs && c in vs && AtMostValue(env, a, b) && AtMostValue(env, b, c)
      ensures AtMostValue(env, a, c)
    {
      LadderIsTextOrder(env, a, b);
      LadderIsTextOrder(env, b, c);
      LadderIsTextOrder(env, a, c);
      AtMostTransitive(CanonicalString(env, a), CanonicalString(env, b), CanonicalString(env, c));
    }
  }

  lemma NumbersLawful(env: Env, vs: set<Value>)
    requires forall v <- vs :: Numeric(v)
    ensures Lawful(env, vs)
  {
    forall a, b | a in vs && b in vs ensures CompareValues(env, b, a) == CompareValues(env, a, b).Reverse() {
      NumbersByValue(env, a, b);
      NumbersByValue(env, b, a);
    }
    forall a, b, c | a in vs && b in vs && c in vs && AtMostValue(env, a, b) && AtMostValue(env, b, c)
      ensures AtMostValue(env, a, c)
    {
      NumbersByValue(env, a, b);
      NumbersByValue(env, b, c);
      NumbersByValue(env, a, c);
    }
  }

  lemma IntsLawful(env: Env, vs: set<Value>)
    requires forall v <- vs :: v.Int?
    ensures Lawful(env, vs)
  {
  }

  lemma DatesLawful(env: Env, vs: set<Value>)
    requires forall v <- vs :: v.DateOnly?
    ensures Lawful(env, vs)
  {
  }

  lemma InstantsLawful(env: Env, vs: set<Value>)
    requires forall v <- vs :: v.DateTime?
    ensures Lawful(env, vs)
  {
    forall a, b, c | a in vs && b in vs && c in vs && AtMostValue(env, a, b) && AtMostValue(env, b, c)
      ensures AtMostValue(env, a, c)
    {
      InstantsTransitive(a.at, b.at, c.at);
    }
  }

  lemma InstantsTransitive(a: Instant, b: Instant, c: Instant)
    requires !CompareInstant(a, b).Greater? && !CompareInstant(b, c).Greater?
    ensures !CompareInstant(a, c).Greater?
  {
    assert !CompareDate(a.date, b.date).Greater? && !CompareDate(b.date, c.date).Greater?;
    assert !CompareDate(a.date, c.date).Greater?;
    assert CompareDate(a.date, c.date).Equal? ==> a.date == b.date == c.date;
  }

  /** On values of one kind the comparator is a total preorder. */
  lemma UniformIsLawful(env: Env, vs: set<Value>)
    requires Uniform(vs)
    ensures Lawful(env, vs)
  {
    if forall v <- vs :: Numeric(v) {
      NumbersLawful(env, vs);
    } else if forall v <- vs :: v.Int? {
      IntsLawful(env, vs);
    } else if forall v <- vs :: Textual(v) {
      TextsByText(env, vs);
    } else if forall v <- vs :: v.DateOnly? {
      DatesLawful(env, vs);
    } else {
      InstantsLawful(env, vs);
    }
  }

  // ---- Values of different kinds together -----------------------------------------------------

  /** The rung of the ladder on which values of one kind meet; values of
      different rungs are compared by their printed texts. */
  datatype Rung = Number | Day | Moment | Other

  function RungOf(v: Value): Rung {
    match v
    case Int(_) => Number
    case Float(_, _) => Number
    case DateOnly(_) => Day
    case DateTime(_) => Moment
    case _ => Other
  }

  /** Numbers are compared without rounding; nothing is asked of other values. */
  predicate Exact(v: Value) {
    RungOf(v) == Number ==> Numeric(v)
  }

  /** Two values of one rung whose printed texts stand in the other order, or
      in the same place although the values differ. */
  predicate Inverted(env: Env, a: Value, b: Value) {
    var text := Compare(CanonicalString(env, b), CanonicalString(env, a));
    && RungOf(a) == RungOf(b) && AtMostValue(env, a, b)
    && !text.Greater? && !(text.Equal? && CompareValues(env, a, b).Equal?)
  }

  predicate PrintsBetween(env: Env, t: Value, low: Value, high: Value) {
    && AtMost(CanonicalString(env, low), CanonicalString(env, t))
    && AtMost(CanonicalString(env, t), CanonicalString(env, high))
  }

  /** Values of different rungs, and values that are on none of the native
      ones, are compared by their texts. */
  lemma AcrossRungs(env: Env, a: Value, b: Value)
    requires RungOf(a) != RungOf(b) || RungOf(a) == Other
    ensures CompareValues(env, a, b) == Compare(CanonicalString(env, a), CanonicalString(env, b))
  {
  }

  lemma AcrossReverse(env: Env, a: Value, b: Value)
    requires RungOf(a) != RungOf(b) || RungOf(a) == Other
    ensures CompareValues(env, b, a) == CompareValues(env, a, b).Reverse()
  {
    AcrossRungs(env, a, b);
    AcrossRungs(env, b, a);
    CompareReverse(CanonicalString(env, a), CanonicalString(env, b));
  }

  lemma NumbersReverse(env: Env, a: Value, b: Value)
    requires RungOf(a) == Number == RungOf(b)
    ensures CompareValues(env, b, a) == CompareValues(env, a, b).Reverse()
  {
  }

  lemma TimesReverse(env: Env, a: Value, b: Value)
    requires RungOf(a) == RungOf(b) && (RungOf(a) == Day || RungOf(a) == Moment)
    ensures CompareValues(env, b, a) == CompareValues(env, a, b).Reverse()
  {
  }

  /** Comparing the other way round gives the reverse, whatever the values. */
  lemma ValuesReverse(env: Env, a: Value, b: Value)
    ensures CompareValues(env, b, a) == CompareValues(env, a, b).Reverse()
  {
    if RungOf(a) != RungOf(b) || RungOf(a) == Other {
      AcrossReverse(env, a, b);
    } else if RungOf(a) == Number {
      NumbersReverse(env, a, b);
    } else {
      TimesReverse(env, a, b);
    }
  }

  lemma SameRungTransitive(env: Env, a: Value, b: Value, c: Value)
    requires Exact(a) && Exact(b) && Exact(c) && RungOf(a) == RungOf(b) == RungOf(c)
    requires AtMostValue(env, a, b) && AtMostValue(env, b, c)
    ensures AtMostValue(env, a, c)
  {
    var vs := {a, b, c};
    match RungOf(a) {
      case Number => NumbersLawful(env, vs);
      case Day => DatesLawful(env, vs);
      case Moment => InstantsLawful(env, vs);
      case Other => TextsByText(env, vs);
    }
    assert a in vs && b in vs && c in vs;
  }

  /** `a <= b` on their own rung: the three circles a value of another rung
      can close are one condition on the texts. */
  lemma BesideAnotherRung(env: Env, a: Value, b: Value, t: Value)
    requires RungOf(a) == RungOf(b) != RungOf(t) && AtMostValue(env, a, b)
    ensures Inverted(env, a, b) && PrintsBetween(env, t, b, a)
       <==> || (AtMostValue(env, b, t) && !AtMostValue(env, a, t))
            || (AtMostValue(env, t, a) && !AtMostValue(env, t, b))
            || (AtMostValue(env, b, t) && AtMostValue(env, t, a) && !AtMostValue(env, b, a))
  {
    ByTexts(env, a, t);
    ByTexts(env, b, t);
    ValuesReverse(env, a, b);
    Circles(CompareValues(env, a, b), CanonicalString(env, a), CanonicalString(env, b), CanonicalString(env, t));
  }

  lemma ByTexts(env: Env, a: Value, t: Value)
    requires RungOf(a) != RungOf(t)
    ensures AtMostValue(env, a, t) <==> AtMost(CanonicalString(env, a), CanonicalString(env, t))
    ensures AtMostValue(env, t, a) <==> AtMost(CanonicalString(env, t), CanonicalString(env, a))
  {
    AcrossRungs(env, a, t);
    AcrossRungs(env, t, a);
  }

  /** `ab` is how two values with the texts `x` and `y` compare. */
  lemma Circles(ab: Ordering, x: string, y: string, z: string)
    requires !ab.Greater?
    ensures !Compare(y, x).Greater? && !(Compare(y, x).Equal? && ab.Equal?) && AtMost(y, z) && AtMost(z, x)
       <==> (AtMost(y, z) && !AtMost(x, z)) || (AtMost(z, x) && !AtMost(z, y))
            || (AtMost(y, z) && AtMost(z, x) && ab.Reverse().Greater?)
  {
    TextTriangle(x, y, z);
  }

  lemma TextTriangle(x: string, y: string, z: string)
    ensures Compare(z, x) == Compare(x, z).Reverse() && Compare(z, y) == Compare(y, z).Reverse()
    ensures Compare(y, x) == Compare(x, y).Reverse()
    ensures AtMost(x, y) && AtMost(y, z) ==> AtMost(x, z)
    ensures AtMost(z, x) && AtMost(x, y) ==> AtMost(z, y)
    ensures AtMost(y, z) && AtMost(z, x) ==> AtMost(y, x)
    ensures Compare(x, y).Equal? ==> Compare(x, z) == Compare(y, z)
    ensures Compare(y, z).Equal? ==> Compare(x, y) == Compare(x, z)
    ensures Compare(x, z).Equal? ==> Compare(y, x) == Compare(y, z)
  {
    CompareReverse(x, z);
    CompareReverse(y, z);
    CompareReverse(x, y);
    CompareEqual(x, z);
    CompareEqual(y, z);
    CompareEqual(x, y);
    if AtMost(x, y) && AtMost(y, z) { AtMostTransitive(x, y, z); }
    if AtMost(z, x) && AtMost(x, y) { AtMostTransitive(z, x, y); }
    if AtMost(y, z) && AtMost(z, x) { AtMostTransitive(y, z, x); }
  }

  /** No value of another rung prints between two values that print out of order. */
  ghost predicate NoneBetween(env: Env, vs: set<Value>) {
    forall a, b, t | a in vs && b in vs && t in vs && RungOf(t) != RungOf(a) && Inverted(env, a, b) ::
      !PrintsBetween(env, t, b, a)
  }

  lemma AllRungsTransitive(env: Env, a: Value, b: Value, c: Value)
    requires RungOf(a) != RungOf(b) && RungOf(b) != RungOf(c) && RungOf(a) != RungOf(c)
    requires AtMostValue(env, a, b) && AtMostValue(env, b, c)
    ensures AtMostValue(env, a, c)
  {
    AcrossRungs(env, a, b);
    AcrossRungs(env, b, c);
    AcrossRungs(env, a, c);
    AtMostTransitive(CanonicalString(env, a), CanonicalString(env, b), CanonicalString(env, c));
  }

  lemma MixedTransitive(env: Env, vs: set<Value>, a: Value, b: Value, c: Value)
    requires (forall v <- vs :: Exact(v)) && NoneBetween(env, vs)
    requires a in vs && b in vs && c in vs && AtMostValue(env, a, b) && AtMostValue(env, b, c)
    ensures AtMostValue(env, a, c)
  {
    if RungOf(a) == RungOf(b) == RungOf(c) {
      SameRungTransitive(env, a, b, c);
    } else if RungOf(a) == RungOf(b) {
      BesideAnotherRung(env, a, b, c);
    } else if RungOf(b) == RungOf(c) {
      BesideAnotherRung(env, b, c, a);
    } else if RungOf(a) == RungOf(c) {
      ValuesReverse(env, a, c);
      if !AtMostValue(env, a, c) { BesideAnotherRung(env, c, a, b); }
    } else {
      AllRungsTransitive(env, a, b, c);
    }
  }

  /** On any values whose numbers are compared without rounding, comparing is
      a total preorder exactly when no value of another rung prints between two
      values of one rung that print out of order. */
  lemma LawfulExactly(env: Env, vs: set<Value>)
    requires forall v <- vs :: Exact(v)
    ensures Lawful(env, vs) <==> NoneBetween(env, vs)
  {
    if Lawful(env, vs) {
      forall a, b, t | a in vs && b in vs && t in vs && RungOf(t) != RungOf(a) && Inverted(env, a, b)
        ensures !PrintsBetween(env, t, b, a)
      {
        BesideAnotherRung(env, a, b, t);
      }
    }
    if NoneBetween(env, vs) {
      forall a, b ensures CompareValues(env, b, a) == CompareValues(env, a, b).Reverse() {
        ValuesReverse(env, a, b);
      }
      forall a, b, c | a in vs && b in vs && c in vs && AtMostValue(env, a, b) && AtMostValue(env, b, c)
        ensures AtMostValue(env, a, c)
      {
        MixedTransitive(env, vs, a, b, c);
      }
    }
  }

  /** Values that print in their own order are never inverted. */
  lemma TextualUpright(env: Env, a: Value, b: Value)
    requires Textual(a) && Textual(b)
    ensures !Inverted(env, a, b)
  {
    LadderIsTextOrder(env, a, b);
    CompareReverse(CanonicalString(env, a), CanonicalString(env, b));
  }

  /** So on numbers mixed with values that print in their own order, only
      numbers can be out of order. */
  lemma MixedLawfulExactly(env: Env, vs: set<Value>)
    requires forall v <- vs :: Numeric(v) || Textual(v)
    ensures Lawful(env, vs) <==>
            forall a, b, t | a in vs && b in vs && t in vs && Numeric(a) && Textual(t) && Inverted(env, a, b) ::
              !PrintsBetween(env, t, b, a)
  {
    LawfulExactly(env, vs);
    forall a, b | a in vs && b in vs && Inverted(env, a, b) ensures Numeric(a) {
      if Textual(a) && Textual(b) { TextualUpright(env, a, b); }
    }
  }

  // ---- Where it is not -------------------------------------------------------------------------

  /** Three values that go round in a circle. */
  lemma CircleIsUnlawful(env: Env, a: Value, b: Value, c: Value)
    requires AtMostValue(env, a, b) && AtMostValue(env, b, c) && CompareValues(env, c, a).Less?
    ensures !Lawful(env, {a, b, c})
  {
    var vs := {a, b, c};
    assert a in vs && b in vs && c in vs;
  }

  lemma NumbersAndTextsOrder(env: Env)
    ensures CompareValues(env, Int(9), Int(10)) == Less && CompareValues(env, Int(10), Int(9)) == Greater
    ensures CompareValues(env, Int(10), Str("1z")) == Less && CompareValues(env, Str("1z"), Int(10)) == Greater
    ensures CompareValues(env, Str("1z"), Int(9)) == Less && CompareValues(env, Int(9), Str("1z")) == Greater
  {
    var nine, ten := IntText(9), IntText(10);
    assert nine == "9" && NatText(1) == "1" && ten == "10";
    assert "10"[1..] == "0" && "1z"[1..] == "z";
    assert Compare("10", "1z") == Compare("0", "z");
    CompareReverse("10", "1z");
  }

  lemma NumbersAndTextsCircle(env: Env)
    ensures !Lawful(env, {Int(9), Int(10), Str("1z")})
  {
    NumbersAndTextsOrder(env);
    CircleIsUnlawful(env, Int(9), Int(10), Str("1z"));
  }

  /** Fractions of a second are not printed. */
  lemma SameSecondText(at: Instant, nanos: nat)
    requires nanos < BILLION
    ensures InstantText(at.(nanos := nanos)) == InstantText(at.(nanos := 0))
  {
  }

  lemma InstantBesideText(env: Env, at: Instant, text: string)
    requires InstantText(at) == text
    ensures CompareValues(env, DateTime(at), Str(text)) == Equal && CompareValues(env, Str(text), DateTime(at)) == Equal
  {
    CompareEqual(text, text);
  }

  /** Two instants within one second, and the text both print as. */
  lemma FractionsAndTextsCircle(env: Env, at: Instant, low: nat, high: nat)
    requires ValidInstant(at) && low < high < BILLION
    ensures !Lawful(env, {DateTime(at.(nanos := low)), DateTime(at.(nanos := high)), Str(InstantText(at.(nanos := 0)))})
  {
    var text := InstantText(at.(nanos := 0));
    SameSecondText(at, low);
    SameSecondText(at, high);
    InstantBesideText(env, at.(nanos := low), text);
    InstantBesideText(env, at.(nanos := high), text);
    LaterInstant(env, at, low, high);
    CircleIsUnlawful(env, DateTime(at.(nanos := high)), Str(text), DateTime(at.(nanos := low)));
    assert {DateTime(at.(nanos := high)), Str(text), DateTime(at.(nanos := low))}
        == {DateTime(at.(nanos := low)), DateTime(at.(nanos := high)), Str(text)};
  }

  lemma LaterInstant(env: Env, at: Instant, low: nat, high: nat)
    requires low < high
    ensures CompareValues(env, DateTime(at.(nanos := low)), DateTime(at.(nanos := high))).Less?
  {
  }

  lemma NinesStart()
    ensures DateText(Date(9999, 1, 1))[0] == '9'
  {
    PadLength(9999, 4);
    assert Pad(9999, 4) == Pad(999, 3) + "9" && Pad(999, 3) == Pad(99, 2) + "9" && Pad(99, 2) == Pad(9, 1) + "9";
    assert Pad(9, 1) == Pad(0, 0) + "9";
  }

  lemma SignedStart()
    ensures DateText(Date(10000, 1, 1))[0] == '+'
  {
  }

  lemma FiveDigitYearsCircle(env: Env)
    ensures !Lawful(env, {DateOnly(Date(9999, 1, 1)), DateOnly(Date(10000, 1, 1)), Str("5")})
  {
    var low, high := Date(9999, 1, 1), Date(10000, 1, 1);
    NinesStart();
    SignedStart();
    CircleIsUnlawful(env, DateOnly(low), DateOnly(high), Str("5"));
  }

  /** Beyond 2^53 two integers round to one float. */
  lemma LargeIntegersCircle(env: Env, text: string)
    ensures !Lawful(env, {Int(TWO53), Int(TWO53 + 1), Float(Finite(TWO53 as real), text)})
  {
    SmallIsExact(TWO53);
    assert Spacing(TWO53 / 2) == 1;
    assert (TWO53 + 1) / 2 == TWO53 / 2;
    assert Spacing(TWO53 + 1) == 2;
    assert ToF64(TWO53 + 1) == TWO53 as real;
    var f := Float(Finite(TWO53 as real), text);
    CircleIsUnlawful(env, Int(TWO53 + 1), f, Int(TWO53));
    assert {Int(TWO53 + 1), f, Int(TWO53)} == {Int(TWO53), Int(TWO53 + 1), f};
  }

  lemma NaNCircle(env: Env, text: string)
    ensures !Lawful(env, {Int(1), Int(2), Float(NaN, text)})
  {
    CircleIsUnlawful(env, Int(2), Float(NaN, text), Int(1));
    assert {Int(2), Float(NaN, text), Int(1)} == {Int(1), Int(2), Float(NaN, text)};
  }
}
