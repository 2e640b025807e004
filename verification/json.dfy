/**
 * The part of `JSON.stringify` the analysis handler relies on: strings, objects of
 * two string fields, and arrays of such objects, written without whitespace. A small
 * parser for exactly that shape is the partner of the printer: parsing what was
 * printed gives back the original values, so equal text means equal content.
 */
module Json {
  import opened Wrappers
  import Text

  /** Lower-case hexadecimal digit, as `JSON.stringify` writes `\u00XX` escapes. */
  function HexDigit(n: nat): char
    requires n < 16
  {
    "0123456789abcdef"[n]
  }

  function HexValue(c: char): Option<nat> {
    if '0' <= c <= '9' then Some(c as int - '0' as int)
    else if 'a' <= c <= 'f' then Some(c as int - 'a' as int + 10)
    else if 'A' <= c <= 'F' then Some(c as int - 'A' as int + 10)
    else None
  }

  /** How `JSON.stringify` writes one character inside a string literal. */
  function EscapeChar(c: char): string {
    if c == '"' then "\\\""
    else if c == '\\' then "\\\\"
    else if c == 8 as char then "\\b"
    else if c == 12 as char then "\\f"
    else if c == '\n' then "\\n"
    else if c == '\r' then "\\r"
    else if c == '\t' then "\\t"
    else if c < ' ' then "\\u00" + [HexDigit(c as int / 16), HexDigit(c as int % 16)]
    else [c]
  }

  function EscapeBody(s: string): string {
    if s == [] then "" else EscapeChar(s[0]) + EscapeBody(s[1..])
  }

  /** A JSON string literal: the escaped text between double quotes. */
  function Quote(s: string): string {
    "\"" + EscapeBody(s) + "\""
  }

  /** Put `c` in front of the text a parse returned. */
  function Prepend(c: char, r: Option<(string, string)>): Option<(string, string)> {
    match r
    case None => None
    case Some((s, rest)) => Some(([c] + s, rest))
  }

  /** The character a backslash escape stands for, with the length of the escape. */
  function Unescape(t: string): Option<(char, nat)>
    requires |t| >= 1 && t[0] == '\\'
  {
    if |t| < 2 then None
    else if t[1] == '"' then Some(('"', 2))
    else if t[1] == '\\' then Some(('\\', 2))
    else if t[1] == '/' then Some(('/', 2))
    else if t[1] == 'b' then Some((8 as char, 2))
    else if t[1] == 'f' then Some((12 as char, 2))
    else if t[1] == 'n' then Some(('\n', 2))
    else if t[1] == 'r' then Some(('\r', 2))
    else if t[1] == 't' then Some(('\t', 2))
    else if t[1] == 'u' && |t| >= 6 then
      match (HexValue(t[2]), HexValue(t[3]), HexValue(t[4]), HexValue(t[5]))
      case (Some(a), Some(b), Some(c), Some(d)) =>
        var v := ((a * 16 + b) * 16 + c) * 16 + d;
        if v < 0xD800 || 0xE000 <= v < 0x11_0000 then Some((v as char, 6)) else None
      case _ => None
    else None
  }

  /**
   * Read the body of a string literal up to its closing quote; return the decoded text
   * and what follows the quote.
   */
  function ParseBody(t: string): (r: Option<(string, string)>)
    ensures r.Some? ==> |r.value.1| < |t|
    decreases |t|
  {
    if t == [] then None
    else if t[0] == '"' then Some(([], t[1..]))
    else if t[0] == '\\' then
      match Unescape(t)
      case None => None
      case Some((c, n)) => if n <= |t| then Prepend(c, ParseBody(t[n..])) else None
    else if t[0] < ' ' then None
    else Prepend(t[0], ParseBody(t[1..]))
  }

  function ParseString(t: string): (r: Option<(string, string)>)
    ensures r.Some? ==> |r.value.1| < |t|
  {
    if t != [] && t[0] == '"' then ParseBody(t[1..]) else None
  }

  lemma EscapeCharParses(c: char, u: string)
    ensures ParseBody(EscapeChar(c) + u) == Prepend(c, ParseBody(u))
  {
    if c == '"' || c == '\\' || c == 8 as char || c == 12 as char || c == '\n' || c == '\r' || c == '\t' {
      ShortEscapeParses(c, u);
    } else if c < ' ' {
      UnicodeEscapeParses(c, u);
    } else {
      assert (EscapeChar(c) + u)[1..] == u;
    }
  }

  /** The two-character escapes. */
  lemma ShortEscapeParses(c: char, u: string)
    requires c == '"' || c == '\\' || c == 8 as char || c == 12 as char || c == '\n' || c == '\r' || c == '\t'
    ensures ParseBody(EscapeChar(c) + u) == Prepend(c, ParseBody(u))
  {
    assert (EscapeChar(c) + u)[2..] == u;
  }

  /** The other control characters, written as `\u00XX`. */
  lemma UnicodeEscapeParses(c: char, u: string)
    requires c < ' ' && c != 8 as char && c != 12 as char && c != '\n' && c != '\r' && c != '\t'
    ensures ParseBody(EscapeChar(c) + u) == Prepend(c, ParseBody(u))
  {
    var e := EscapeChar(c);
    var hi, lo := c as int / 16, c as int % 16;
    assert e == ['\\', 'u', '0', '0', HexDigit(hi), HexDigit(lo)];
    var t := e + u;
    assert Unescape(t) == Some((c, 6)) by {
      HexDigitValue(hi);
      HexDigitValue(lo);
      assert t[2] == '0' && t[3] == '0' && t[4] == HexDigit(hi) && t[5] == HexDigit(lo);
    }
    assert t[6..] == u;
  }

  /** A hexadecimal digit reads back as its value. */
  lemma HexDigitValue(n: nat)
    requires n < 16
    ensures HexValue(HexDigit(n)) == Some(n)
  {
  }

  /** Parsing the escaped body of `s` followed by a closing quote gives back `s`. */
  lemma {:induction false} EscapeBodyParses(s: string, rest: string)
    ensures ParseBody(EscapeBody(s) + "\"" + rest) == Some((s, rest))
  {
    if s == [] {
      assert EscapeBody(s) + "\"" + rest == "\"" + rest;
      assert ("\"" + rest)[1..] == rest;
    } else {
      assert EscapeBody(s) + "\"" + rest == EscapeChar(s[0]) + (EscapeBody(s[1..]) + "\"" + rest);
      EscapeCharParses(s[0], EscapeBody(s[1..]) + "\"" + rest);
      EscapeBodyParses(s[1..], rest);
      assert [s[0]] + s[1..] == s;
    }
  }

  /** Round trip of a string literal: the literal is read back whole, whatever follows it. */
  lemma QuoteParses(s: string, rest: string)
    ensures ParseString(Quote(s) + rest) == Some((s, rest))
  {
    assert (Quote(s) + rest)[1..] == EscapeBody(s) + "\"" + rest;
    EscapeBodyParses(s, rest);
  }

  /** Different strings print as different literals. */
  lemma QuoteInjective(a: string, b: string)
    requires Quote(a) == Quote(b)
    ensures a == b
  {
    QuoteParses(a, "");
    QuoteParses(b, "");
    assert Quote(a) + "" == Quote(b) + "";
  }

  /** `{"<key>":"<first>","reason":"<second>"}`, the shape of every item of the analysis lists. */
  function PairJson(key: string, first: string, second: string): string {
    "{\"" + key + "\":" + Quote(first) + ",\"reason\":" + Quote(second) + "}"
  }

  /** `[item,item,…]` for the printed items. */
  function ArrayJson(items: seq<string>): string {
    "[" + Text.Join(items, ",") + "]"
  }

  function PairsJson(key: string, pairs: seq<(string, string)>): string {
    ArrayJson(seq(|pairs|, i requires 0 <= i < |pairs| => PairJson(key, pairs[i].0, pairs[i].1)))
  }

  /** Consume the literal text `lit` at the front of `t`. */
  function Expect(t: string, lit: string): (r: Option<string>)
    ensures r.Some? ==> |r.value| == |t| - |lit|
  {
    if Text.StartsWith(t, lit) then Some(t[|lit|..]) else None
  }

  function ParsePair(key: string, t: string): (r: Option<((string, string), string)>)
    ensures r.Some? ==> |r.value.1| < |t|
  {
    match Expect(t, "{\"" + key + "\":")
    case None => None
    case Some(t1) =>
      match ParseString(t1)
      case None => None
      case Some((first, t2)) =>
        match Expect(t2, ",\"reason\":")
        case None => None
        case Some(t3) =>
          match ParseString(t3)
          case None => None
          case Some((second, t4)) =>
            match Expect(t4, "}")
            case None => None
            case Some(t5) => Some(((first, second), t5))
  }

  /** Items of a non-empty array after the opening bracket, through the closing bracket. */
  function ParseItems(key: string, t: string): Option<(seq<(string, string)>, string)>
    decreases |t|
  {
    match ParsePair(key, t)
    case None => None
    case Some((p, t1)) =>
      if t1 != [] && t1[0] == ',' then
        match ParseItems(key, t1[1..])
        case None => None
        case Some((ps, t2)) => Some(([p] + ps, t2))
      else if t1 != [] && t1[0] == ']' then Some(([p], t1[1..]))
      else None
  }

  function ParsePairs(key: string, t: string): Option<(seq<(string, string)>, string)> {
    if Text.StartsWith(t, "[]") then Some(([], t[2..]))
    else if t != [] && t[0] == '[' then ParseItems(key, t[1..])
    else None
  }

  lemma ExpectPrefix(lit: string, rest: string)
    ensures Expect(lit + rest, lit) == Some(rest)
  {
    assert (lit + rest)[..|lit|] == lit;
    assert (lit + rest)[|lit|..] == rest;
  }

  lemma PairParses(key: string, first: string, second: string, rest: string)
    ensures ParsePair(key, PairJson(key, first, second) + rest) == Some(((first, second), rest))
  {
    var open := "{\"" + key + "\":";
    var t := PairJson(key, first, second) + rest;
    var t4 := "}" + rest;
    var t3 := Quote(second) + t4;
    var t2 := ",\"reason\":" + t3;
    var t1 := Quote(first) + t2;
    assert Expect(t, open) == Some(t1) by {
      assert t == open + t1;
      ExpectPrefix(open, t1);
    }
    assert ParseString(t1) == Some((first, t2)) by {
      QuoteParses(first, t2);
    }
    assert Expect(t2, ",\"reason\":") == Some(t3) by {
      ExpectPrefix(",\"reason\":", t3);
    }
    assert ParseString(t3) == Some((second, t4)) by {
      QuoteParses(second, t4);
    }
    assert Expect(t4, "}") == Some(rest) by {
      ExpectPrefix("}", rest);
    }
  }

  /** The printed items of a non-empty list of pairs, separated by commas. */
  function ItemsJson(key: string, pairs: seq<(string, string)>): string
    requires pairs != []
  {
    PairJson(key, pairs[0].0, pairs[0].1) + (if |pairs| == 1 then "" else "," + ItemsJson(key, pairs[1..]))
  }

  lemma {:induction false} ItemsJsonIsJoin(key: string, pairs: seq<(string, string)>)
    requires pairs != []
    ensures ItemsJson(key, pairs)
         == Text.Join(seq(|pairs|, i requires 0 <= i < |pairs| => PairJson(key, pairs[i].0, pairs[i].1)), ",")
  {
    var items := seq(|pairs|, i requires 0 <= i < |pairs| => PairJson(key, pairs[i].0, pairs[i].1));
    if |pairs| > 1 {
      var tail := pairs[1..];
      assert items[1..] == seq(|tail|, i requires 0 <= i < |tail| => PairJson(key, tail[i].0, tail[i].1));
      ItemsJsonIsJoin(key, tail);
    }
  }

  /** One step of `ParseItems`: an item followed by a comma, then the remaining items. */
  lemma ItemsStep(key: string, t: string, p: (string, string), t1: string)
    requires ParsePair(key, t) == Some((p, t1))
    ensures t1 != [] && t1[0] == ',' ==>
      ParseItems(key, t) == (match ParseItems(key, t1[1..])
                             case None => None
                             case Some((ps, t2)) => Some(([p] + ps, t2)))
    ensures t1 != [] && t1[0] == ']' ==> ParseItems(key, t) == Some(([p], t1[1..]))
  {
  }

  lemma {:induction false} ItemsParse(key: string, pairs: seq<(string, string)>, rest: string)
    requires pairs != []
    ensures ParseItems(key, ItemsJson(key, pairs) + "]" + rest) == Some((pairs, rest))
  {
    if |pairs| == 1 {
      LastItemParses(key, pairs[0], rest);
      assert [pairs[0]] == pairs;
    } else {
      ItemsParse(key, pairs[1..], rest);
      NextItemParses(key, pairs[0], pairs[1..], rest);
      assert [pairs[0]] + pairs[1..] == pairs;
    }
  }

  /** The last item, then the closing bracket. */
  lemma LastItemParses(key: string, p: (string, string), rest: string)
    ensures ParseItems(key, ItemsJson(key, [p]) + "]" + rest) == Some(([p], rest))
  {
    var t1 := "]" + rest;
    var t := ItemsJson(key, [p]) + "]" + rest;
    assert ParsePair(key, t) == Some((p, t1)) by {
      assert t == PairJson(key, p.0, p.1) + t1;
      PairParses(key, p.0, p.1, t1);
    }
    ItemsStep(key, t, p, t1);
    assert t1[1..] == rest;
  }

  /** An item, a comma, then items that parse. */
  lemma NextItemParses(key: string, p: (string, string), tail: seq<(string, string)>, rest: string)
    requires tail != []
    requires ParseItems(key, ItemsJson(key, tail) + "]" + rest) == Some((tail, rest))
    ensures ParseItems(key, ItemsJson(key, [p] + tail) + "]" + rest) == Some(([p] + tail, rest))
  {
    var t2 := ItemsJson(key, tail) + "]" + rest;
    var t := ItemsJson(key, [p] + tail) + "]" + rest;
    ItemsJsonCons(key, p, tail, rest);
    PairParses(key, p.0, p.1, "," + t2);
    CommaStep(key, t, p, t2, tail, rest);
  }

  /** The printed items of `[p] + tail` are `p`'s item, a comma, then the items of `tail`. */
  lemma ItemsJsonCons(key: string, p: (string, string), tail: seq<(string, string)>, rest: string)
    requires tail != []
    ensures ItemsJson(key, [p] + tail) + "]" + rest == PairJson(key, p.0, p.1) + ("," + (ItemsJson(key, tail) + "]" + rest))
  {
    assert ([p] + tail)[1..] == tail;
  }

  /** `ParseItems` after an item followed by a comma goes on with the items after the comma. */
  lemma CommaStep(key: string, t: string, p: (string, string), u: string, ps: seq<(string, string)>, t2: string)
    requires ParsePair(key, t) == Some((p, "," + u))
    requires ParseItems(key, u) == Some((ps, t2))
    ensures ParseItems(key, t) == Some(([p] + ps, t2))
  {
    assert ("," + u)[1..] == u;
  }

  /** Round trip of an array of pairs: parsing what `PairsJson` printed returns the same pairs. */
  lemma PairsParse(key: string, pairs: seq<(string, string)>, rest: string)
    ensures ParsePairs(key, PairsJson(key, pairs) + rest) == Some((pairs, rest))
  {
    if pairs == [] {
      EmptyPairsParse(key, rest);
    } else {
      var inner := ItemsJson(key, pairs) + "]" + rest;
      ItemsJsonIsJoin(key, pairs);
      assert PairsJson(key, pairs) + rest == "[" + inner;
      ItemsParse(key, pairs, rest);
      OpenedPairsParse(key, "[" + inner, inner, pairs, rest);
    }
  }

  lemma EmptyPairsParse(key: string, rest: string)
    ensures ParsePairs(key, PairsJson(key, []) + rest) == Some(([], rest))
  {
    var t := PairsJson(key, []) + rest;
    assert t == "[]" + rest;
    assert t[..2] == "[]";
    assert t[2..] == rest;
  }

  /** An opening bracket followed by items: `ParsePairs` reads them with `ParseItems`. */
  lemma OpenedPairsParse(key: string, t: string, inner: string, pairs: seq<(string, string)>, rest: string)
    requires t == "[" + inner
    requires ParseItems(key, inner) == Some((pairs, rest))
    ensures ParsePairs(key, t) == Some((pairs, rest))
  {
    ItemsStartWithBrace(key, inner);
    assert t[0] == '[' && t[1] == '{' && t[1..] == inner;
    assert !Text.StartsWith(t, "[]") by {
      if |t| >= 2 {
        assert t[..2][1] == '{';
      }
    }
  }

  /** What `ParseItems` accepts starts with the opening brace of its first item. */
  lemma ItemsStartWithBrace(key: string, t: string)
    requires ParseItems(key, t).Some?
    ensures t != [] && t[0] == '{'
  {
    var lit := "{\"" + key + "\":";
    assert Expect(t, lit).Some?;
    assert t[..|lit|] == lit;
    assert t[0] == t[..|lit|][0];
  }
}
