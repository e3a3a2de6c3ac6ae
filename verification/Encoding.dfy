/** Percent-encoding, UTF-8 and decimal numbers. */
module Encoding {
  import opened Text

  // ---- UTF-8 -----------------------------------------------------------------------

  predicate Byte(c: char) {
    c as int < 256
  }

  predicate ByteText(s: string) {
    forall i | 0 <= i < |s| :: Byte(s[i])
  }

  predicate Between(c: char, low: int, high: int) {
    low <= c as int <= high
  }

  /** The length of the character that starts with this byte. */
  function Width(c: char): nat {
    if Between(c, 0x00, 0x7F) then 1
    else if Between(c, 0xC2, 0xDF) then 2
    else if Between(c, 0xE0, 0xEF) then 3
    else 4
  }

  /** One well-formed character leads the text: section 4 of RFC 3629. */
  predicate LeadsWell(s: string) {
    && s != [] && Width(s[0]) <= |s|
    && (Between(s[0], 0x00, 0x7F) || Between(s[0], 0xC2, 0xF4))
    && (Width(s[0]) >= 2 ==> Between(s[1], LowSecond(s[0]), HighSecond(s[0])))
    && (Width(s[0]) >= 3 ==> Between(s[2], 0x80, 0xBF))
    && (Width(s[0]) >= 4 ==> Between(s[3], 0x80, 0xBF))
  }

  function LowSecond(c: char): int {
    if c as int == 0xE0 then 0xA0 else if c as int == 0xF0 then 0x90 else 0x80
  }

  function HighSecond(c: char): int {
    if c as int == 0xED then 0x9F else if c as int == 0xF4 then 0x8F else 0xBF
  }

  /** `String::from_utf8` accepts these bytes. */
  predicate ValidUtf8(s: string)
    decreases |s|
  {
    s == [] || (LeadsWell(s) && ValidUtf8(s[Width(s[0])..]))
  }

  lemma {:induction false} ValidIsBytes(s: string)
    requires ValidUtf8(s)
    ensures ByteText(s)
    decreases |s|
  {
    if s != [] {
      var n := Width(s[0]);
      ValidIsBytes(s[n..]);
      forall i | 0 <= i < |s| ensures Byte(s[i]) {
        if i >= n { assert s[i] == s[n..][i - n]; }
      }
    }
  }

  lemma {:induction false} AsciiIsUtf8(s: string)
    requires forall i | 0 <= i < |s| :: s[i] as int < 0x80
    ensures ValidUtf8(s)
    decreases |s|
  {
    if s != [] { AsciiIsUtf8(s[1..]); }
  }

  lemma LeadsOn(a: string, b: string)
    requires LeadsWell(a)
    ensures LeadsWell(a + b) && Width((a + b)[0]) == Width(a[0])
  {
    var s := a + b;
    assert s[0] == a[0];
    assert |a| < 2 || s[1] == a[1];
    assert |a| < 3 || s[2] == a[2];
    assert |a| < 4 || s[3] == a[3];
  }

  lemma LeadsThrough(a: string, b: string)
    requires LeadsWell(a) && ValidUtf8(a[Width(a[0])..] + b)
    ensures ValidUtf8(a + b)
  {
    LeadsOn(a, b);
    assert (a + b)[Width(a[0])..] == a[Width(a[0])..] + b;
  }

  lemma {:induction false} Utf8Concat(a: string, b: string)
    requires ValidUtf8(a) && ValidUtf8(b)
    ensures ValidUtf8(a + b)
    decreases |a|
  {
    if a == [] {
      assert a + b == b;
    } else {
      Utf8Concat(a[Width(a[0])..], b);
      LeadsThrough(a, b);
    }
  }

  /** What stands before an ASCII character is well-formed by itself. */
  lemma {:induction false} Utf8Head(a: string, c: char, b: string)
    requires c as int < 0x80 && ValidUtf8(a + [c] + b)
    ensures ValidUtf8(a)
    decreases |a|
  {
    if a != [] {
      var s := a + [c] + b;
      var n := Width(a[0]);
      assert s[0] == a[0];
      assert |a| < 2 || s[1] == a[1];
      assert |a| < 3 || s[2] == a[2];
      assert |a| < 4 || s[3] == a[3];
      assert s[|a|] == c;
      assert n <= |a|;
      assert s[n..] == a[n..] + [c] + b;
      Utf8Head(a[n..], c, b);
    }
  }

  // ---- Percent-encoding ----------------------------------------------------------------

  function HexValue(c: char): Option<nat> {
    if '0' <= c <= '9' then Some(c as int - '0' as int)
    else if 'a' <= c <= 'f' then Some(c as int - 'a' as int + 10)
    else if 'A' <= c <= 'F' then Some(c as int - 'A' as int + 10)
    else None
  }

  /** The bytes a text decodes to.  In a query string `+` stands for a space;
      in a path it stands for itself. */
  function DecodeBytes(s: string, plusIsSpace: bool): Option<string> {
    if s == [] then Some([])
    else if s[0] == '%' then
      if |s| < 3 || HexValue(s[1]).None? || HexValue(s[2]).None? then None
      else
        Prepend([(16 * HexValue(s[1]).value + HexValue(s[2]).value) as char], DecodeBytes(s[3..], plusIsSpace))
    else Prepend([if s[0] == '+' && plusIsSpace then ' ' else s[0]], DecodeBytes(s[1..], plusIsSpace))
  }

  function Prepend(out: string, rest: Option<string>): Option<string> {
    match rest
    case Some(r) => Some(out + r)
    case None => None
  }

  lemma PrependTwice(a: string, b: string, rest: Option<string>)
    ensures Prepend(a, Prepend(b, rest)) == Prepend(a + b, rest)
    ensures Prepend([], rest) == rest
  {
    if rest.Some? {
      assert a + (b + rest.value) == a + b + rest.value;
      assert [] + rest.value == rest.value;
    }
  }

  function Decode(s: string, plusIsSpace: bool): Option<string> {
    match DecodeBytes(s, plusIsSpace)
    case Some(bytes) => if ValidUtf8(bytes) then Some(bytes) else None
    case None => None
  }

  method PercentDecode(input: string, plusIsSpace: bool) returns (r: Option<string>)
    ensures r == Decode(input, plusIsSpace)
  {
    var out := [];
    var i := 0;
    assert input[0..] == input;
    PrependTwice([], [], DecodeBytes(input, plusIsSpace));
    while i < |input|
      invariant 0 <= i <= |input|
      invariant DecodeBytes(input, plusIsSpace) == Prepend(out, DecodeBytes(input[i..], plusIsSpace))
    {
      var c := input[i];
      if c == '%' {
        if i + 2 >= |input| { return None; }
        var hi, lo := HexValue(input[i + 1]), HexValue(input[i + 2]);
        if hi.None? || lo.None? { return None; }
        assert input[i..][3..] == input[i + 3..];
        PrependTwice(out, [(16 * hi.value + lo.value) as char], DecodeBytes(input[i + 3..], plusIsSpace));
        out := out + [(16 * hi.value + lo.value) as char];
        i := i + 3;
      } else {
        assert input[i..][1..] == input[i + 1..];
        PrependTwice(out, [if c == '+' && plusIsSpace then ' ' else c], DecodeBytes(input[i + 1..], plusIsSpace));
        out := out + [if c == '+' && plusIsSpace then ' ' else c];
        i := i + 1;
      }
    }
    assert out + [] == out;
    r := if ValidUtf8(out) then Some(out) else None;
  }

  predicate Unreserved(c: char) {
    'a' <= c <= 'z' || 'A' <= c <= 'Z' || '0' <= c <= '9' || c == '-' || c == '.' || c == '_' || c == '~'
  }

  function HexDigit(n: nat): char
    requires n < 16
  {
    if n < 10 then ('0' as int + n) as char else ('A' as int + n - 10) as char
  }

  /** Percent-encode everything but the unreserved characters of section 2.3
      of RFC 3986, and `/` where the text is a path. */
  function Encode(s: string, keepSlash: bool): string
    requires ByteText(s)
  {
    if s == [] then []
    else
      (if Unreserved(s[0]) || (keepSlash && s[0] == '/') then [s[0]]
       else ['%', HexDigit(s[0] as int / 16), HexDigit(s[0] as int % 16)])
      + Encode(s[1..], keepSlash)
  }

  lemma HexRoundTrip(n: nat)
    requires n < 16
    ensures HexValue(HexDigit(n)) == Some(n) && Unreserved(HexDigit(n))
  {
  }

  lemma {:induction false} DecodeEncode(s: string, keepSlash: bool, plusIsSpace: bool)
    requires ByteText(s)
    ensures DecodeBytes(Encode(s, keepSlash), plusIsSpace) == Some(s)
  {
    if s != [] {
      DecodeEncode(s[1..], keepSlash, plusIsSpace);
      var rest := Encode(s[1..], keepSlash);
      if Unreserved(s[0]) || (keepSlash && s[0] == '/') {
        assert ([s[0]] + rest)[1..] == rest;
      } else {
        EscapeDecodes(s[0], rest, plusIsSpace);
      }
      assert s == [s[0]] + s[1..];
    }
  }

  lemma EscapeDecodes(c: char, rest: string, plusIsSpace: bool)
    requires Byte(c)
    ensures DecodeBytes(['%', HexDigit(c as int / 16), HexDigit(c as int % 16)] + rest, plusIsSpace)
         == Prepend([c], DecodeBytes(rest, plusIsSpace))
  {
    var hi, lo := c as int / 16, c as int % 16;
    HexRoundTrip(hi);
    HexRoundTrip(lo);
    assert (['%', HexDigit(hi), HexDigit(lo)] + rest)[3..] == rest;
  }

  lemma {:induction false} EncodeIsPlain(s: string, keepSlash: bool)
    requires ByteText(s)
    ensures forall c <- Encode(s, keepSlash) :: Unreserved(c) || c == '%' || (keepSlash && c == '/')
  {
    if s != [] {
      EncodeIsPlain(s[1..], keepSlash);
      if !Unreserved(s[0]) && !(keepSlash && s[0] == '/') {
        HexRoundTrip(s[0] as int / 16);
        HexRoundTrip(s[0] as int % 16);
      }
    }
  }

  /** Encoded text decodes to itself in a path and in a query string. */
  lemma DecodeUndoesEncode(s: string, keepSlash: bool, plusIsSpace: bool)
    requires ValidUtf8(s)
    ensures ByteText(s) && Decode(Encode(s, keepSlash), plusIsSpace) == Some(s)
  {
    ValidIsBytes(s);
    DecodeEncode(s, keepSlash, plusIsSpace);
  }

  // ---- Decimal numbers --------------------------------------------------------------------

  const USIZE_MAX: nat := 0xFFFF_FFFF_FFFF_FFFF

  predicate Digits(s: string) {
    forall i | 0 <= i < |s| :: '0' <= s[i] <= '9'
  }

  function DigitsValue(s: string): nat
    requires Digits(s)
  {
    if s == [] then 0
    else 10 * DigitsValue(s[..|s| - 1]) + (s[|s| - 1] as int - '0' as int)
  }

  /** `str::parse::<usize>`: an optional plus sign, at least one digit, no overflow. */
  function ParseUsize(s: string): Option<nat> {
    var d := if "+" <= s then s[1..] else s;
    if d == [] || !Digits(d) || DigitsValue(d) > USIZE_MAX then None else Some(DigitsValue(d))
  }

  /** `str::parse::<i64>`. */
  function ParseI64(s: string): Option<int> {
    var d := if "+" <= s || "-" <= s then s[1..] else s;
    if d == [] || !Digits(d) then None
    else
      var v := if "-" <= s then -(DigitsValue(d) as int) else DigitsValue(d);
      if -0x8000_0000_0000_0000 <= v <= 0x7FFF_FFFF_FFFF_FFFF then Some(v) else None
  }

  function Digit(n: nat): char
    requires n < 10
  {
    ('0' as int + n) as char
  }

  function NatText(n: nat): string {
    if n < 10 then [Digit(n)] else NatText(n / 10) + [Digit(n % 10)]
  }

  function IntText(n: int): string {
    if n < 0 then "-" + NatText(-n) else NatText(n)
  }

  lemma {:induction false} NatTextValue(n: nat)
    ensures Digits(NatText(n)) && NatText(n) != [] && DigitsValue(NatText(n)) == n
  {
    if n < 10 {
      assert NatText(n)[..0] == [];
    } else {
      NatTextValue(n / 10);
      assert NatText(n)[..|NatText(n)| - 1] == NatText(n / 10);
    }
  }

  lemma ParsePrintedUsize(n: nat)
    requires n <= USIZE_MAX
    ensures ParseUsize(NatText(n)) == Some(n)
  {
    NatTextValue(n);
    assert '0' <= NatText(n)[0] <= '9';
  }

  /** `str::parse::<bool>`. */
  function ParseBool(s: string): Option<bool> {
    if s == "true" then Some(true) else if s == "false" then Some(false) else None
  }
}
