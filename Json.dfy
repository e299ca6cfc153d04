/**
 * The JSON text `serde_json` writes for strings and arrays: string literals
 * with its escaping, and arrays as comma-separated items in brackets.
 */
module Json {
  import opened Wrappers
  import opened Text

  function HexDigit(d: nat): char
    requires d < 16
  {
    if d < 10 then ('0' as int + d) as char else ('a' as int + d - 10) as char
  }

  function HexValue(c: char): (r: Option<nat>)
    ensures r.Some? ==> r.value < 16
  {
    if '0' <= c <= '9' then Some(c as int - '0' as int)
    else if 'a' <= c <= 'f' then Some(c as int - 'a' as int + 10)
    else if 'A' <= c <= 'F' then Some(c as int - 'A' as int + 10)
    else None
  }

  /**
   * How one character is written inside a string literal: quote and backslash
   * behind a backslash, the control characters with a short escape where JSON
   * has one and as `\u00XX` (lower-case hex) otherwise, everything else as is.
   */
  function EscapeChar(c: char): string {
    if c == '"' then ['\\', '"']
    else if c == '\\' then ['\\', '\\']
    else if c as int == 0x08 then ['\\', 'b']
    else if c as int == 0x09 then ['\\', 't']
    else if c as int == 0x0a then ['\\', 'n']
    else if c as int == 0x0c then ['\\', 'f']
    else if c as int == 0x0d then ['\\', 'r']
    else if c as int < 0x20 then ['\\', 'u', '0', '0', HexDigit(c as int / 16), HexDigit(c as int % 16)]
    else [c]
  }

  function Escape(s: string): string {
    if s == [] then [] else EscapeChar(s[0]) + Escape(s[1..])
  }

  /** A JSON string literal. */
  function Quote(s: string): string {
    "\"" + Escape(s) + "\""
  }

  /** A JSON array of already encoded items. */
  function Array(items: seq<string>): string {
    "[" + Join(items, ",") + "]"
  }

  /** `"name":value` for each member, in order. */
  function Members(members: seq<(string, string)>): (r: seq<string>)
    ensures |r| == |members|
  {
    if members == [] then []
    else [Quote(members[0].0) + ":" + members[0].1] + Members(members[1..])
  }

  /** A JSON object of already encoded values, members in the order given. */
  function Object(members: seq<(string, string)>): string {
    "{" + Join(Members(members), ",") + "}"
  }

  /** The character a two-character escape `\x` stands for. */
  function ShortEscape(x: char): Option<char> {
    match x
    case '"' => Some('"')
    case '\\' => Some('\\')
    case '/' => Some('/')
    case 'b' => Some(8 as char)
    case 't' => Some(9 as char)
    case 'n' => Some(10 as char)
    case 'f' => Some(12 as char)
    case 'r' => Some(13 as char)
    case _ => None
  }

  /** The value of four hex digits. */
  function HexQuad(q: string): (r: Option<nat>)
    requires |q| == 4
    ensures r.Some? ==> r.value < 0x10000
  {
    match (HexValue(q[0]), HexValue(q[1]), HexValue(q[2]), HexValue(q[3]))
    case (Some(a), Some(b), Some(c), Some(d)) => Some(a * 0x1000 + b * 0x100 + c * 0x10 + d)
    case _ => None
  }

  function Prepend(c: char, r: Option<string>): Option<string> {
    match r
    case Some(t) => Some([c] + t)
    case None => None
  }

  /**
   * Decodes the text between the quotes of a JSON string literal; `None` for
   * a bare quote or control character, a bad escape, or an escaped surrogate.
   */
  function Unescape(s: string): Option<string>
    decreases |s|
  {
    if s == [] then Some([])
    else if s[0] == '"' || s[0] as int < 0x20 then None
    else if s[0] != '\\' then Prepend(s[0], Unescape(s[1..]))
    else if |s| < 2 then None
    else if s[1] == 'u' then
      if |s| < 6 then None
      else match HexQuad(s[2..6])
        case Some(v) =>
          if 0xD800 <= v < 0xE000 then None else Prepend(v as char, Unescape(s[6..]))
        case None => None
    else match ShortEscape(s[1])
      case Some(c) => Prepend(c, Unescape(s[2..]))
      case None => None
  }

  lemma HexRoundTrip(d: nat)
    requires d < 16
    ensures HexValue(HexDigit(d)) == Some(d)
  {
  }

  lemma UnescapeChar(c: char, rest: string)
    ensures Unescape(EscapeChar(c) + rest) == Prepend(c, Unescape(rest))
  {
    var e := EscapeChar(c);
    var s := e + rest;
    if c as int < 0x20 && c as int !in {0x08, 0x09, 0x0a, 0x0c, 0x0d} {
      var hi, lo := c as int / 16, c as int % 16;
      HexRoundTrip(hi);
      HexRoundTrip(lo);
      assert s[2..6] == ['0', '0', HexDigit(hi), HexDigit(lo)];
      assert s[6..] == rest;
      assert (c as int) as char == c;
    } else if |e| == 2 {
      assert s[2..] == rest;
    } else {
      assert s[1..] == rest;
    }
  }

  /** Decoding what `Escape` writes gives the string back. */
  lemma {:induction false} UnescapeEscape(s: string)
    ensures Unescape(Escape(s)) == Some(s)
  {
    if s != [] {
      UnescapeEscape(s[1..]);
      UnescapeChar(s[0], Escape(s[1..]));
      assert [s[0]] + s[1..] == s;
    }
  }
}
