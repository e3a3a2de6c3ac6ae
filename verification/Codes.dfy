/** The codes and small grammars of a request, apart from how they are read. */
module Codes {
  import opened Text
  import opened Encoding
  import opened Query

  // ---- UTF-8 ---------------------------------------------------------------------------

  /** A Unicode scalar value. */
  predicate ScalarValue(c: int) {
    0 <= c <= 0x10FFFF && !(0xD800 <= c <= 0xDFFF)
  }

  /** Its encoding: section 3 of RFC 3629. */
  function Utf8Of(c: int): string
    requires ScalarValue(c)
  {
    if c < 0x80 then [c as char]
    else if c < 0x800 then [(0xC0 + c / 0x40) as char, (0x80 + c % 0x40) as char]
    else if c < 0x1_0000 then
      [(0xE0 + c / 0x1000) as char, (0x80 + c / 0x40 % 0x40) as char, (0x80 + c % 0x40) as char]
    else
      [(0xF0 + c / 0x4_0000) as char, (0x80 + c / 0x1000 % 0x40) as char,
       (0x80 + c / 0x40 % 0x40) as char, (0x80 + c % 0x40) as char]
  }

  function Utf8Text(cs: seq<int>): string
    requires forall c <- cs :: ScalarValue(c)
  {
    if cs == [] then [] else Utf8Of(cs[0]) + Utf8Text(cs[1..])
  }

  lemma EncodedLeads(c: int, rest: string)
    requires ScalarValue(c)
    ensures LeadsWell(Utf8Of(c) + rest) && Width((Utf8Of(c) + rest)[0]) == |Utf8Of(c)|
  {
    var s := Utf8Of(c) + rest;
    assert s[0] == Utf8Of(c)[0];
    assert c >= 0x80 ==> s[1] == Utf8Of(c)[1];
    assert c >= 0x800 ==> s[2] == Utf8Of(c)[2];
    assert c >= 0x1_0000 ==> s[3] == Utf8Of(c)[3];
  }

  lemma TwoBytes(s: string) returns (c: int)
    requires LeadsWell(s) && Width(s[0]) == 2
    ensures ScalarValue(c) && Utf8Of(c) == s[..2]
  {
    c := (s[0] as int - 0xC0) * 0x40 + (s[1] as int - 0x80);
    assert c / 0x40 == s[0] as int - 0xC0 && c % 0x40 == s[1] as int - 0x80;
  }

  lemma ThreeBytes(s: string) returns (c: int)
    requires LeadsWell(s) && Width(s[0]) == 3
    ensures ScalarValue(c) && Utf8Of(c) == s[..3]
  {
    var x, y, z := s[0] as int - 0xE0, s[1] as int - 0x80, s[2] as int - 0x80;
    c := x * 0x1000 + y * 0x40 + z;
    assert c / 0x1000 == x && c / 0x40 == x * 0x40 + y && c % 0x40 == z;
    assert (x * 0x40 + y) % 0x40 == y;
  }

  lemma FourBytes(s: string) returns (c: int)
    requires LeadsWell(s) && Width(s[0]) == 4
    ensures ScalarValue(c) && Utf8Of(c) == s[..4]
  {
    var w, x, y, z := s[0] as int - 0xF0, s[1] as int - 0x80, s[2] as int - 0x80, s[3] as int - 0x80;
    c := w * 0x4_0000 + x * 0x1000 + y * 0x40 + z;
    assert c / 0x4_0000 == w && c / 0x1000 == w * 0x40 + x && c / 0x40 == (w * 0x40 + x) * 0x40 + y && c % 0x40 == z;
    assert (w * 0x40 + x) % 0x40 == x && ((w * 0x40 + x) * 0x40 + y) % 0x40 == y;
  }

  lemma LeadEncodes(s: string) returns (c: int)
    requires LeadsWell(s)
    ensures ScalarValue(c) && Utf8Of(c) == s[..Width(s[0])]
  {
    match Width(s[0]) {
      case 1 => c := s[0] as int;
      case 2 => c := TwoBytes(s);
      case 3 => c := ThreeBytes(s);
      case _ => c := FourBytes(s);
    }
  }

  lemma {:induction false} ReadBack(s: string) returns (cs: seq<int>)
    requires ValidUtf8(s)
    ensures (forall c <- cs :: ScalarValue(c)) && Utf8Text(cs) == s
    decreases |s|
  {
    if s == [] {
      cs := [];
    } else {
      var c := LeadEncodes(s);
      var rest := ReadBack(s[Width(s[0])..]);
      cs := [c] + rest;
      assert cs[1..] == rest;
      assert s == s[..Width(s[0])] + s[Width(s[0])..];
    }
  }

  lemma {:induction false} EncodedIsValid(cs: seq<int>)
    requires forall c <- cs :: ScalarValue(c)
    ensures ValidUtf8(Utf8Text(cs))
  {
    if cs != [] {
      var head, rest := Utf8Of(cs[0]), Utf8Text(cs[1..]);
      EncodedIsValid(cs[1..]);
      EncodedLeads(cs[0], rest);
      assert (head + rest)[|head|..] == rest;
    }
  }

  /** Accepted are exactly the encodings of sequences of scalar values: no
      surrogates, no overlong forms, nothing cut off. */
  lemma Utf8Exactly(s: string)
    ensures ValidUtf8(s) <==> exists cs: seq<int> :: (forall c <- cs :: ScalarValue(c)) && Utf8Text(cs) == s
  {
    if ValidUtf8(s) {
      var cs := ReadBack(s);
    }
    if cs: seq<int> :| (forall c <- cs :: ScalarValue(c)) && Utf8Text(cs) == s {
      EncodedIsValid(cs);
    }
  }

  // ---- Escapes -----------------------------------------------------------------------------

  const HEX_UPPER := "0123456789ABCDEF"
  const HEX_LOWER := "0123456789abcdef"

  /** Both cases of a digit stand for its place in the row; no other character
      stands for anything. */
  lemma HexDigits(c: char, n: nat)
    ensures HexValue(c) == Some(n) <==> n < 16 && (c == HEX_UPPER[n] || c == HEX_LOWER[n])
  {
    if n < 16 { HexRow(n); }
  }

  lemma HexRow(n: nat)
    requires n < 16
    ensures HEX_UPPER[n] as int == (if n < 10 then 48 + n else 55 + n)
    ensures HEX_LOWER[n] as int == (if n < 10 then 48 + n else 87 + n)
    ensures HexValue(HEX_UPPER[n]) == Some(n) && HexValue(HEX_LOWER[n]) == Some(n)
  {
  }

  /** An escape stands for one byte, whichever case its digits have. */
  lemma EscapeReads(high: nat, low: nat, upperHigh: bool, upperLow: bool, rest: string, plusIsSpace: bool)
    requires high < 16 && low < 16
    ensures var h := if upperHigh then HEX_UPPER[high] else HEX_LOWER[high];
            var l := if upperLow then HEX_UPPER[low] else HEX_LOWER[low];
            DecodeBytes(['%', h, l] + rest, plusIsSpace)
            == Encoding.Prepend([(16 * high + low) as char], DecodeBytes(rest, plusIsSpace))
  {
    var h := if upperHigh then HEX_UPPER[high] else HEX_LOWER[high];
    var l := if upperLow then HEX_UPPER[low] else HEX_LOWER[low];
    HexRow(high);
    HexRow(low);
    assert (['%', h, l] + rest)[3..] == rest;
  }

  /** Without escapes a text stands for itself, but that in a query string a
      plus sign is a space. */
  lemma {:induction false} PlainReads(s: string, plusIsSpace: bool)
    requires '%' !in s
    ensures var r := DecodeBytes(s, plusIsSpace);
            && r.Some? && |r.value| == |s|
            && forall i | 0 <= i < |s| :: r.value[i] == if plusIsSpace && s[i] == '+' then ' ' else s[i]
  {
    if s != [] {
      PlainReads(s[1..], plusIsSpace);
    }
  }

  /** A percent sign without two hexadecimal digits after it is refused. */
  lemma BrokenEscape(s: string, plusIsSpace: bool)
    requires s != [] && s[0] == '%'
    requires |s| < 3 || HexValue(s[1]).None? || HexValue(s[2]).None?
    ensures Decode(s, plusIsSpace) == None
  {
  }

  // ---- Pairs ---------------------------------------------------------------------------------

  /** A pair is cut at its first equals sign; without one the value is empty. */
  lemma PairsCut(k: string, v: string)
    requires '=' !in k
    ensures KeyValue(k + "=" + v)
         == if Decode(k, true).None? then Err(BadValue(k)) else if Decode(v, true).None? then Err(BadValue(v))
            else Ok((Decode(k, true).value, Decode(v, true).value))
    ensures KeyValue(k) == if Decode(k, true).None? then Err(BadValue(k)) else Ok((Decode(k, true).value, ""))
  {
    FindIs(k, v, '=');
    assert Find(k, '=') == None;
    assert (k + "=" + v)[..|k|] == k && (k + "=" + v)[|k| + 1..] == v;
    assert DecodeBytes([], true) == Some([]) && ValidUtf8([]);
  }

  // ---- Control values --------------------------------------------------------------------------

  /** Slashes in front are dropped, and nothing else. */
  lemma {:induction false} TrimStartExact(s: string)
    ensures TrimStart(s) == [] || TrimStart(s)[0] != '/'
    ensures |TrimStart(s)| <= |s| && s[|s| - |TrimStart(s)|..] == TrimStart(s)
    ensures forall i | 0 <= i < |s| - |TrimStart(s)| :: s[i] == '/'
  {
    if s != [] && s[0] == '/' { TrimStartExact(s[1..]); }
  }

  lemma DescendingReads(key: string)
    requires key != []
    ensures ParseOrder(key + ":desc") == Ok(OrderSpec(key, true))
  {
    var d := key + ":desc";
    assert d[|d| - 5..] == ":desc" && d[..|d| - 5] == key;
  }

  lemma AscendingReads(key: string)
    requires key != []
    ensures ParseOrder(key + ":asc") == Ok(OrderSpec(key, false))
  {
    var a := key + ":asc";
    assert a[|a| - 4..] == ":asc" && a[..|a| - 4] == key;
    assert a[|a| - 4] == ':';
    assert |a| >= 5 ==> a[|a| - 5..][1] == a[|a| - 4];
  }

  /** Any other text is a key whole, in ascending order. */
  lemma PlainOrderReads(key: string)
    requires key != [] && !EndsWith(key, ":desc") && !EndsWith(key, ":asc")
    ensures ParseOrder(key) == Ok(OrderSpec(key, false))
  {
  }

  /** A suffix alone leaves no key. */
  lemma EmptyOrderRefused(value: string)
    requires value in {"", ":asc", ":desc"}
    ensures ParseOrder(value) == Err(BadControl("order=" + value))
  {
    assert EndsWith(":asc", ":asc") && EndsWith(":desc", ":desc");
    assert |":asc"| == 4 && |":desc"| == 5;
  }

  /** No query string, or an empty one, asks for everything. */
  lemma EmptyQuery(env: Env)
    ensures Parsed(env, "") == Ok(ParsedQuery([], true, None, None, None, None))
  {
    assert Split("", '&') == [[]];
    var none: seq<string> := [[]];
    assert none[1..] == [];
    assert AddPairs(env, NEW, none) == AddPairs(env, NEW, none[1..]);
  }

  /** Keys that begin with `__anw-` are controls, all others predicates. */
  lemma ControlsByName(env: Env, q: ParsedQuery, key: string, name: string, value: string)
    ensures AddKeyValue(env, q, "__anw-" + name, value) == ApplyControl(q, name, value)
    ensures !("__anw-" <= key) ==> AddKeyValue(env, q, key, value) == AddPredicate(env, q, key, value)
  {
    assert ("__anw-" + name)[6..] == name;
  }

  /** There are five controls. */
  lemma ControlsKnown(q: ParsedQuery, name: string, value: string)
    requires name !in {"recursive", "path", "limit", "order", "kind"}
    ensures ApplyControl(q, name, value) == Err(BadControl(name))
  {
  }

  lemma OrderSet(q: ParsedQuery, value: string)
    ensures ApplyControl(q, "order", value) == match ParseOrder(value)
                                               case Ok(spec) => Ok(q.(order := Some(spec)))
                                               case Err(e) => Err(e)
  {
  }

  /** Setting a control leaves all else as it was. */
  lemma ControlsSet(q: ParsedQuery, value: string)
    ensures ApplyControl(q, "recursive", "true") == Ok(q.(recursive := true))
    ensures ApplyControl(q, "recursive", "false") == Ok(q.(recursive := false))
    ensures value != "true" && value != "false" ==>
              ApplyControl(q, "recursive", value) == Err(BadControl("recursive=" + value))
    ensures ApplyControl(q, "path", value) == Ok(q.(pathPrefix := Some(TrimStart(value))))
    ensures ApplyControl(q, "kind", value)
         == if value == "" then Err(BadControl("kind: empty key")) else Ok(q.(kindKey := Some(value)))
  {
  }

  /** A limit is a decimal number, leading zeros and one plus sign allowed, of
      at most 64 bits. */
  lemma LimitsSet(q: ParsedQuery, digits: string)
    requires digits != [] && Digits(digits)
    ensures forall text | text in [digits, "+" + digits] ::
              ApplyControl(q, "limit", text)
              == if DigitsValue(digits) <= 18_446_744_073_709_551_615 then Ok(q.(limit := Some(DigitsValue(digits))))
                 else Err(BadControl("limit=" + text))
  {
    assert '0' <= digits[0] <= '9';
    assert ("+" + digits)[1..] == digits && ("+" + digits)[0] == '+';
  }

  /** Anything else is refused. */
  lemma LimitsRefused(q: ParsedQuery, text: string)
    requires text == "" || text == "+" || exists i :: 1 <= i < |text| && !('0' <= text[i] <= '9')
    ensures ApplyControl(q, "limit", text) == Err(BadControl("limit=" + text))
  {
    if i :| 1 <= i < |text| && !('0' <= text[i] <= '9') {
      assert text[1..][i - 1] == text[i];
    }
  }

  /** Leading zeros count for nothing. */
  lemma {:induction false} LeadingZero(digits: string)
    requires Digits(digits)
    ensures Digits("0" + digits) && DigitsValue("0" + digits) == DigitsValue(digits)
    decreases |digits|
  {
    var s := "0" + digits;
    assert forall i | 0 < i < |s| :: s[i] == digits[i - 1];
    if digits == [] {
      assert s[..0] == [];
    } else {
      LeadingZero(digits[..|digits| - 1]);
      assert s[..|s| - 1] == "0" + digits[..|digits| - 1];
    }
  }

  // ---- Values checked at once ----------------------------------------------------------------

  /** A presence test needs a truth value, an expression must be valid, and an
      operator must be known; nothing else about a predicate is refused. */
  lemma PredicatesChecked(env: Env, q: ParsedQuery, key: string, value: string)
    ensures var r := AddPredicate(env, q, key, value);
            match SplitOperator(key)
            case Err(e) => r == Err(e)
            case Ok((field, op)) =>
              if op == Exists && value != "true" && value != "false" then r == Err(BadValue(key + "=" + value))
              else if op == Regex && env.regexError(value).Some?
                then r == Err(BadValue(key + ": invalid regex: " + env.regexError(value).value))
              else r == Ok(q.(predicates := q.predicates + [Predicate(field, op, value)]))
  {
  }

  /** An operator that is not one of the ten is refused by name. */
  lemma UnknownRefused(field: string, name: string)
    requires '_' !in name
    requires name !in {"in", "all", "not", "exists", "regex", "prefix", "gt", "gte", "lt", "lte"}
    ensures SplitOperator(field + ['_', '_'] + name) == Err(UnknownOperator(name))
  {
    var key := field + ['_', '_'] + name;
    forall j | |field| < j <= |key| - 2 ensures !(key[j] == '_' && key[j + 1] == '_') {
      assert key[j + 1] == name[j - 1 - |field|] && name[j - 1 - |field|] in name;
    }
    assert key[|field|] == '_' && key[|field| + 1] == '_';
    assert key[|field| + 2..] == name;
  }
}
