/**
 * The JSON pieces the application touches: the value a parser yields (kept abstract,
 * the parser itself is a parameter), and the one serialisation the memory store performs,
 * JsonSerializer.Serialize(new { text }), with the default encoder's escaping.
 */
module Json {
  import opened Wrappers

  /** A parsed JSON document, as far as the application inspects it. */
  datatype JsonValue =
    | JString(s: string)
    | JNull
    | JObject(fields: map<string, JsonValue>)
    | JOther    // numbers, booleans, arrays

  /** A JSON reader (System.Text.Json, or PostgreSQL's jsonb input); None when the text is not JSON. */
  type JsonParser = string -> Option<JsonValue>

  function HexDigit(d: nat): (c: char)
    requires d < 16
  {
    if d < 10 then ('0' as int + d) as char else ('A' as int + d - 10) as char
  }

  function HexValue(c: char): (r: Option<nat>)
    ensures r.Some? ==> r.value < 16
  {
    if '0' <= c <= '9' then Some(c as int - '0' as int)
    else if 'A' <= c <= 'F' then Some(c as int - 'A' as int + 10)
    else if 'a' <= c <= 'f' then Some(c as int - 'a' as int + 10)
    else None
  }

  lemma HexDigitValue(d: nat)
    requires d < 16
    ensures HexValue(HexDigit(d)) == Some(d)
  {
  }

  /** "\uXXXX" for one UTF-16 code unit, upper-case hex. */
  function UnicodeEscape(u: nat): (r: string)
    requires u < 0x1_0000
    ensures |r| == 6
  {
    ['\\', 'u', HexDigit(u / 0x1000), HexDigit(u % 0x1000 / 0x100), HexDigit(u % 0x100 / 0x10), HexDigit(u % 0x10)]
  }

  /** The characters the default encoder writes as themselves. */
  predicate IsPlain(c: char)
  {
    ' ' <= c <= '~' && c !in {'"', '\\', '&', '\'', '+', '<', '>', '`'}
  }

  /** How the default encoder writes one character inside a JSON string. */
  function EscapeChar(c: char): (r: string)
  {
    if IsPlain(c) then [c]
    else if c == '\\' then "\\\\"
    else if c == '\n' then "\\n"
    else if c == '\r' then "\\r"
    else if c == '\t' then "\\t"
    else if c == '\U{0008}' then "\\b"
    else if c == '\U{000C}' then "\\f"
    else if (c as int) < 0x1_0000 then UnicodeEscape(c as int)
    else
      var v := c as int - 0x1_0000;
      UnicodeEscape(0xD800 + v / 0x400) + UnicodeEscape(0xDC00 + v % 0x400)
  }

  function Escape(s: string): string
  {
    if s == [] then [] else EscapeChar(s[0]) + Escape(s[1..])
  }

  /** JsonSerializer.Serialize(new { text }): a one-property object, no spaces. */
  function SerializeText(text: string): (r: string)
    ensures |r| >= 11 && r[..9] == "{\"text\":\"" && r[|r| - 2..] == "\"}"
  {
    "{\"text\":\"" + Escape(text) + "\"}"
  }

  function Hex4(s: string): (r: Option<nat>)
    requires |s| >= 4
    ensures r.Some? ==> r.value < 0x1_0000
  {
    match (HexValue(s[0]), HexValue(s[1]), HexValue(s[2]), HexValue(s[3]))
    case (Some(a), Some(b), Some(c), Some(d)) => Some(4096 * a + 256 * b + 16 * c + d)
    case _ => None
  }

  /** Reads the body of a JSON string literal back into its characters. */
  function Unescape(s: string): (r: Option<string>)
    decreases |s|
  {
    if s == [] then Some([])
    else if s[0] != '\\' then
      if s[0] == '"' || s[0] < ' ' then None
      else match Unescape(s[1..]) case Some(t) => Some([s[0]] + t) case None => None
    else if |s| < 2 then None
    else if s[1] in {'"', '\\', '/', 'b', 'f', 'n', 'r', 't'} then
      var c := match s[1]
        case 'b' => '\U{0008}' case 'f' => '\U{000C}' case 'n' => '\n'
        case 'r' => '\r' case 't' => '\t' case _ => s[1];
      match Unescape(s[2..]) case Some(t) => Some([c] + t) case None => None
    else if s[1] != 'u' || |s| < 6 || Hex4(s[2..6]).None? then None
    else
      var u := Hex4(s[2..6]).value;
      if 0xDC00 <= u < 0xE000 then None
      else if u < 0xD800 || 0xE000 <= u then
        match Unescape(s[6..]) case Some(t) => Some([u as char] + t) case None => None
      else if |s| < 12 || s[6..8] != "\\u" || Hex4(s[8..12]).None? then None
      else
        var lo := Hex4(s[8..12]).value;
        if !(0xDC00 <= lo < 0xE000) then None
        else
          var c := 0x1_0000 + (u - 0xD800) * 0x400 + (lo - 0xDC00);
          match Unescape(s[12..]) case Some(t) => Some([c as char] + t) case None => None
  }

  /** A code unit is the sum of its four hex digits' place values. */
  lemma HexPlaces(u: nat)
    requires u < 0x1_0000
    ensures 0x1000 * (u / 0x1000) + 0x100 * (u % 0x1000 / 0x100) + 0x10 * (u % 0x100 / 0x10) + u % 0x10 == u
  {
    assert u == 0x1000 * (u / 0x1000) + u % 0x1000;
    assert u % 0x1000 == 0x100 * (u % 0x1000 / 0x100) + u % 0x100;
    assert u % 0x100 == 0x10 * (u % 0x100 / 0x10) + u % 0x10;
  }

  /** The four hex digits of an escape read back as its code unit. */
  lemma UnicodeEscapeRead(u: nat)
    requires u < 0x1_0000
    ensures Hex4(UnicodeEscape(u)[2..6]) == Some(u)
  {
    var e := UnicodeEscape(u)[2..6];
    HexDigitValue(u / 0x1000);
    HexDigitValue(u % 0x1000 / 0x100);
    HexDigitValue(u % 0x100 / 0x10);
    HexDigitValue(u % 0x10);
    assert HexValue(e[0]) == Some(u / 0x1000);
    assert HexValue(e[1]) == Some(u % 0x1000 / 0x100);
    assert HexValue(e[2]) == Some(u % 0x100 / 0x10);
    assert HexValue(e[3]) == Some(u % 0x10);
    HexPlaces(u);
  }

  /** A "\uXXXX" escape of a code unit outside the surrogates reads back as that character. */
  lemma BmpEscapeRead(u: nat, rest: string)
    requires u < 0xD800 || 0xE000 <= u < 0x1_0000
    ensures Unescape(UnicodeEscape(u) + rest) ==
            match Unescape(rest) case Some(t) => Some([u as char] + t) case None => None
  {
    var e := UnicodeEscape(u) + rest;
    UnicodeEscapeRead(u);
    assert e[2..6] == UnicodeEscape(u)[2..6];
    assert e[6..] == rest;
  }

  /** A high and a low surrogate escape, one after the other, read back as the character they encode. */
  lemma PairEscapeRead(hi: nat, lo: nat, rest: string)
    requires 0xD800 <= hi < 0xDC00 <= lo < 0xE000
    ensures Unescape(UnicodeEscape(hi) + UnicodeEscape(lo) + rest) ==
            match Unescape(rest)
            case Some(t) => Some([(0x1_0000 + (hi - 0xD800) * 0x400 + (lo - 0xDC00)) as char] + t)
            case None => None
  {
    var e := UnicodeEscape(hi) + UnicodeEscape(lo) + rest;
    UnicodeEscapeRead(hi);
    UnicodeEscapeRead(lo);
    assert e[2..6] == UnicodeEscape(hi)[2..6];
    assert e[6..8] == "\\u";
    assert e[8..12] == UnicodeEscape(lo)[2..6];
    assert e[12..] == rest;
  }

  /** A character written as itself reads back as itself. */
  lemma PlainRead(c: char, rest: string)
    requires IsPlain(c)
    ensures Unescape([c] + rest) == match Unescape(rest) case Some(t) => Some([c] + t) case None => None
  {
    assert ([c] + rest)[1..] == rest;
  }

  /** A two-character escape reads back as the character it stands for. */
  lemma ShortEscapeRead(c: char, rest: string)
    requires c in {'\\', '\n', '\r', '\t', '\U{0008}', '\U{000C}'}
    ensures Unescape(EscapeChar(c) + rest) ==
            match Unescape(rest) case Some(t) => Some([c] + t) case None => None
  {
    var e := EscapeChar(c) + rest;
    assert |EscapeChar(c)| == 2 && EscapeChar(c)[0] == '\\';
    assert e[2..] == rest;
  }

  /** Reading back one escaped character, followed by anything, yields that character first. */
  lemma EscapeCharRead(c: char, rest: string)
    ensures Unescape(EscapeChar(c) + rest) ==
            match Unescape(rest) case Some(t) => Some([c] + t) case None => None
  {
    if IsPlain(c) {
      assert EscapeChar(c) == [c];
      PlainRead(c, rest);
    } else if c in {'\\', '\n', '\r', '\t', '\U{0008}', '\U{000C}'} {
      ShortEscapeRead(c, rest);
    } else if (c as int) < 0x1_0000 {
      assert EscapeChar(c) == UnicodeEscape(c as int);
      BmpEscapeRead(c as int, rest);
      assert (c as int) as char == c;
    } else {
      var v := c as int - 0x1_0000;
      var hi, lo := 0xD800 + v / 0x400, 0xDC00 + v % 0x400;
      assert EscapeChar(c) == UnicodeEscape(hi) + UnicodeEscape(lo);
      PairEscapeRead(hi, lo, rest);
      assert (0x1_0000 + (hi - 0xD800) * 0x400 + (lo - 0xDC00)) as char == c;
    }
  }

  /** The default metadata round-trips: the escaped body of the string reads back as the text. */
  lemma {:induction false} EscapeRoundTrip(s: string)
    ensures Unescape(Escape(s)) == Some(s)
  {
    if s != [] {
      assert Escape(s) == EscapeChar(s[0]) + Escape(s[1..]);
      EscapeCharRead(s[0], Escape(s[1..]));
      EscapeRoundTrip(s[1..]);
      assert [s[0]] + s[1..] == s;
    }
  }

  /** No hex digit is a quote, so no "\\uXXXX" escape holds one. */
  lemma UnicodeEscapeNoQuote(u: nat)
    requires u < 0x1_0000
    ensures '"' !in UnicodeEscape(u)
  {
    var e := UnicodeEscape(u);
    forall i | 0 <= i < 6 ensures e[i] != '"' {
      if i >= 2 {
        assert HexValue(e[i]).Some?;
      }
    }
  }

  /** No character is escaped into a raw quote. */
  lemma EscapeCharNoQuote(c: char)
    ensures '"' !in EscapeChar(c)
  {
    if !IsPlain(c) && !(c in {'\\', '\n', '\r', '\t', '\U{0008}', '\U{000C}'}) {
      if (c as int) < 0x1_0000 {
        UnicodeEscapeNoQuote(c as int);
      } else {
        var v := c as int - 0x1_0000;
        UnicodeEscapeNoQuote(0xD800 + v / 0x400);
        UnicodeEscapeNoQuote(0xDC00 + v % 0x400);
      }
    }
  }

  /** The escaped body never ends the string early: it holds no raw quote. */
  lemma {:induction false} EscapeHasNoQuote(s: string)
    ensures '"' !in Escape(s)
  {
    if s != [] {
      EscapeHasNoQuote(s[1..]);
      EscapeCharNoQuote(s[0]);
      assert Escape(s) == EscapeChar(s[0]) + Escape(s[1..]);
    }
  }
}
