/** How frontmatter values print. */
module Prints {
  import opened Text
  import opened Notes
  import opened Encoding
  import opened Query
  import opened Values

  lemma {:induction false} PadReads(n: nat, width: nat)
    requires n < Power10(width)
    ensures |Pad(n, width)| == width && Digits(Pad(n, width)) && DigitsValue(Pad(n, width)) == n
  {
    if width == 0 {
      assert Pad(n, width) == [];
    } else {
      PadReads(n / 10, width - 1);
      var t := Pad(n, width);
      assert t[..|t| - 1] == Pad(n / 10, width - 1);
      assert t[|t| - 1] == Digit(n % 10);
    }
  }

  lemma TwoDigits(n: nat)
    requires n < 100
    ensures |Pad(n, 2)| == 2 && Digits(Pad(n, 2)) && DigitsValue(Pad(n, 2)) == n
  {
    assert Power10(1) == 10 && Power10(2) == 100;
    PadReads(n, 2);
  }

  /** A text that reads as this number in this many digits. */
  predicate Reads(s: string, n: nat, width: nat) {
    |s| == width && Digits(s) && DigitsValue(s) == n
  }

  /** Dates print as `YYYY-MM-DD`. */
  lemma DatePrints(env: Env, d: Date)
    requires FourDigitYear(d)
    ensures var t := CanonicalString(env, DateOnly(d));
            && |t| == 10 && t[4] == '-' && t[7] == '-'
            && Reads(t[..4], d.year, 4) && Reads(t[5..7], d.month, 2) && Reads(t[8..], d.day, 2)
  {
    assert Power10(2) == 100 && Power10(3) == 1000 && Power10(4) == 10000;
    PadReads(d.year, 4);
    TwoDigits(d.month);
    TwoDigits(d.day);
    var y, m, e := Pad(d.year, 4), Pad(d.month, 2), Pad(d.day, 2);
    var t := y + "-" + m + "-" + e;
    assert DateText(d) == t;
    assert t[..4] == y && t[5..7] == m && t[8..] == e;
  }

  lemma ClockPrints(at: Instant)
    requires ValidInstant(at)
    ensures var t := ClockText(at);
            && |t| == 9 && t[2] == ':' && t[5] == ':' && t[8] == 'Z'
            && Reads(t[..2], at.second / 3600, 2) && Reads(t[3..5], at.second / 60 % 60, 2)
            && Reads(t[6..8], at.second % 60 + at.nanos / BILLION, 2)
  {
    ClockBounds(at);
    ThreeParts(at.second / 3600, at.second / 60 % 60, at.second % 60 + at.nanos / BILLION);
  }

  lemma ThreeParts(h: nat, m: nat, s: nat)
    requires h < 100 && m < 100 && s < 100
    ensures var t := Pad(h, 2) + ":" + Pad(m, 2) + ":" + Pad(s, 2) + "Z";
            && |t| == 9 && t[2] == ':' && t[5] == ':' && t[8] == 'Z'
            && Reads(t[..2], h, 2) && Reads(t[3..5], m, 2) && Reads(t[6..8], s, 2)
  {
    TwoDigits(h);
    TwoDigits(m);
    TwoDigits(s);
    ClockParts(Pad(h, 2), Pad(m, 2), Pad(s, 2));
  }

  lemma ClockParts(h: string, m: string, s: string)
    requires |h| == |m| == |s| == 2
    ensures var t := h + ":" + m + ":" + s + "Z";
            |t| == 9 && t[2] == ':' && t[5] == ':' && t[8] == 'Z' && t[..2] == h && t[3..5] == m && t[6..8] == s
  {
  }

  /** Datetimes print as the date, a `T`, the time of day to the second, a leap
      second as 60, and a `Z`. */
  lemma InstantPrints(env: Env, at: Instant)
    requires ValidInstant(at) && FourDigitYear(at.date)
    ensures var t := CanonicalString(env, DateTime(at));
            && |t| == 20 && t[10] == 'T' && t[..10] == CanonicalString(env, DateOnly(at.date))
            && t[11..] == ClockText(at)
  {
    DatePrints(env, at.date);
    ClockPrints(at);
    assert InstantText(at) == DateText(at.date) + ['T'] + ClockText(at);
  }

  /** Scalars print as in a query. */
  lemma ScalarsPrint(env: Env, s: string, i: int, f: F64)
    ensures CanonicalString(env, Null) == "null"
    ensures CanonicalString(env, Bool(true)) == "true" && CanonicalString(env, Bool(false)) == "false"
    ensures CanonicalString(env, Str(s)) == s && CanonicalString(env, Float(f, s)) == s
    ensures i >= 0 ==> Digits(CanonicalString(env, Int(i))) && DigitsValue(CanonicalString(env, Int(i))) == i
    ensures i < 0 ==> CanonicalString(env, Int(i)) == "-" + CanonicalString(env, Int(-i))
  {
    NatTextValue(if i < 0 then -i else i);
  }

  /** Lists and mappings are no scalars: they print as the debug printer has
      it, and among themselves are ordered by that text. */
  lemma CompositesPrint(env: Env, v: Value, w: Value)
    requires (v.Sequence? || v.Mapping?) && (w.Sequence? || w.Mapping?)
    ensures CanonicalString(env, v) == env.debug(v)
    ensures CompareValues(env, v, w) == Compare(env.debug(v), env.debug(w))
  {
  }

  /** A number prints without needless zeros. */
  lemma {:induction false} NoLeadingZero(n: nat)
    ensures n > 0 ==> NatText(n)[0] != '0'
    ensures n == 0 ==> NatText(n) == "0"
  {
    if n >= 10 {
      NoLeadingZero(n / 10);
      NatTextValue(n / 10);
    }
  }
}
