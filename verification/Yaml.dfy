/** Double-quoted YAML scalars: how the compiler writes them and how a YAML reader decodes them. */
module YamlScalar {
  import opened Base

  /******* _npm_quote *******/

  const HEX := "0123456789abcdef"

  /** What one character becomes between the quotes. */
  function QuoteChar(c: char): string {
    if c == '\\' then "\\\\"
    else if c == '"' then "\\\""
    else if c == '\t' then "\\t"
    else if c == '\n' then "\\n"
    else if c == '\r' then "\\r"
    else if c < ' ' || c == '\U{7F}' then "\\x" + [HEX[c as int / 16], HEX[c as int % 16]]
    else if c == '\U{2028}' then "\\u2028"
    else if c == '\U{2029}' then "\\u2029"
    else [c]
  }

  function QuoteBody(s: string): string {
    if s == [] then [] else QuoteChar(s[0]) + QuoteBody(s[1..])
  }

  function Quote(s: string): string { "\"" + QuoteBody(s) + "\"" }

  method NpmQuote(s: string) returns (out: string)
    ensures out == Quote(s)
  {
    out := "\"";
    for i := 0 to |s|
      invariant out + QuoteBody(s[i..]) == "\"" + QuoteBody(s)
    {
      assert s[i..][0] == s[i] && s[i..][1..] == s[i + 1..];
      out := out + QuoteChar(s[i]);
    }
    assert s[|s|..] == [];
    out := out + "\"";
  }

  /******* Reading a double-quoted scalar (YAML 1.2.2, sections 5.1, 5.7 and 7.3.1) *******/

  /** What may stand raw between the quotes (`nb-json`): a tab, and every character from the space on. */
  predicate RawAllowed(c: char) { c == '\t' || c >= ' ' }

  function HexValue(c: char): Option<nat> {
    if '0' <= c <= '9' then Some(c as int - '0' as int)
    else if 'a' <= c <= 'f' then Some(c as int - 'a' as int + 10)
    else if 'A' <= c <= 'F' then Some(c as int - 'A' as int + 10)
    else None
  }

  function HexNumber(s: string): Option<nat> {
    if s == [] then Some(0)
    else match (HexNumber(s[..|s| - 1]), HexValue(s[|s| - 1]))
      case (Some(high), Some(low)) => Some(high * 16 + low)
      case _ => None
  }

  /** The character of a one-letter escape (section 5.7). */
  function ShortEscape(c: char): Option<char> {
    match c
    case '0' => Some('\0')
    case 'a' => Some('\U{07}')
    case 'b' => Some('\U{08}')
    case 't' => Some('\t')
    case 'n' => Some('\n')
    case 'v' => Some('\U{0B}')
    case 'f' => Some('\U{0C}')
    case 'r' => Some('\r')
    case 'e' => Some('\U{1B}')
    case ' ' => Some(' ')
    case '"' => Some('"')
    case '/' => Some('/')
    case '\\' => Some('\\')
    case 'N' => Some('\U{85}')
    case '_' => Some('\U{A0}')
    case 'L' => Some('\U{2028}')
    case 'P' => Some('\U{2029}')
    case _ => None
  }

  function HexDigits(c: char): nat {
    match c case 'x' => 2 case 'u' => 4 case 'U' => 8 case _ => 0
  }

  /** What follows a backslash: the character meant, and how many characters that takes. */
  function ReadEscape(t: string): Option<(char, nat)> {
    if t == [] then None
    else if ShortEscape(t[0]).Some? then Some((ShortEscape(t[0]).value, 1))
    else
      var n := HexDigits(t[0]);
      if n == 0 || |t| < n + 1 then None
      else match HexNumber(t[1..n + 1])
        case Some(code) =>
          if code < 0xD800 || 0xE000 <= code < 0x11_0000 then Some((code as char, n + 1)) else None
        case None => None
  }

  /** The rest of a scalar after its opening quote: its value, and what follows the closing quote. */
  function ReadBody(t: string): Option<(string, string)>
    decreases |t|
  {
    if t == [] then None
    else if t[0] == '"' then Some(("", t[1..]))
    else if t[0] == '\\' then
      match ReadEscape(t[1..])
      case None => None
      case Some((c, used)) =>
        if used + 1 > |t| then None else Cons(c, ReadBody(t[used + 1..]))
    else if !RawAllowed(t[0]) then None
    else Cons(t[0], ReadBody(t[1..]))
  }

  function Cons(c: char, r: Option<(string, string)>): Option<(string, string)> {
    match r case None => None case Some((s, rest)) => Some(([c] + s, rest))
  }

  /** A text that is one double-quoted scalar and nothing else. */
  function ReadScalar(t: string): Option<string> {
    if t == [] || t[0] != '"' then None
    else match ReadBody(t[1..])
      case Some((s, rest)) => if rest == [] then Some(s) else None
      case None => None
  }

  /******* Round trip *******/

  lemma HexPair(n: nat)
    requires n < 256
    ensures HexNumber([HEX[n / 16], HEX[n % 16]]) == Some(n)
  {
    var s := [HEX[n / 16], HEX[n % 16]];
    HexDigitValue(n / 16);
    HexDigitValue(n % 16);
    assert s[..1] == [HEX[n / 16]] && s[..1][..0] == [];
    assert HexNumber(s[..1]) == Some(n / 16);
  }

  lemma HexDigitValue(d: nat)
    requires d < 16
    ensures HexValue(HEX[d]) == Some(d)
  {
  }

  lemma LineSeparatorCode(last: char, code: nat)
    requires (last == '8' && code == 0x2028) || (last == '9' && code == 0x2029)
    ensures HexNumber("202" + [last]) == Some(code)
  {
    var s := "202" + [last];
    assert s[..3] == "202" && "202"[..2] == "20" && "20"[..1] == "2" && "2"[..0] == [];
    assert HexNumber("2") == Some(2);
    assert HexNumber("20") == Some(0x20);
    assert HexNumber("202") == Some(0x202);
  }

  lemma ReadsShortEscape(e: char, rest: string)
    requires ShortEscape(e).Some?
    ensures ReadBody(['\\', e] + rest) == Cons(ShortEscape(e).value, ReadBody(rest))
  {
    var t := ['\\', e] + rest;
    assert t[1..] == [e] + rest && t[2..] == rest;
    assert ReadEscape(t[1..]) == Some((ShortEscape(e).value, 1));
  }

  lemma ReadsHexEscape(kind: char, digits: string, code: nat, rest: string)
    requires ShortEscape(kind).None? && HexDigits(kind) == |digits| > 0
    requires HexNumber(digits) == Some(code) && code < 0xD800
    ensures ReadBody("\\" + [kind] + digits + rest) == Cons(code as char, ReadBody(rest))
  {
    var t := "\\" + [kind] + digits + rest;
    var u := [kind] + digits + rest;
    assert t[1..] == u && u[1..|digits| + 1] == digits && t[|digits| + 2..] == rest;
    assert ReadEscape(u) == Some((code as char, |digits| + 1));
  }

  lemma ReadsBackControl(c: char, rest: string)
    requires (c < ' ' || c == '\U{7F}') && c != '\t' && c != '\n' && c != '\r'
    ensures ReadBody(QuoteChar(c) + rest) == Cons(c, ReadBody(rest))
  {
    var n := c as int;
    var digits := [HEX[n / 16], HEX[n % 16]];
    HexPair(n);
    ReadsHexEscape('x', digits, n, rest);
    assert QuoteChar(c) == "\\" + ['x'] + digits;
  }

  lemma ReadsBackSeparator(c: char, rest: string)
    requires c == '\U{2028}' || c == '\U{2029}'
    ensures ReadBody(QuoteChar(c) + rest) == Cons(c, ReadBody(rest))
  {
    var last := if c == '\U{2028}' then '8' else '9';
    LineSeparatorCode(last, c as int);
    ReadsHexEscape('u', "202" + [last], c as int, rest);
    assert QuoteChar(c) == "\\" + ['u'] + ("202" + [last]);
  }

  predicate Raw(c: char) { c !in "\\\"\t\n\r" && c >= ' ' && c != '\U{7F}' && c != '\U{2028}' && c != '\U{2029}' }

  lemma ReadsBackRaw(c: char, rest: string)
    requires Raw(c)
    ensures QuoteChar(c) == [c]
    ensures ReadBody([c] + rest) == Cons(c, ReadBody(rest))
  {
    assert ([c] + rest)[1..] == rest;
  }

  /** One quoted character is read back. */
  lemma ReadsBackChar(c: char, rest: string)
    ensures ReadBody(QuoteChar(c) + rest) == Cons(c, ReadBody(rest))
  {
    if c == '\\' || c == '"' || c == '\t' || c == '\n' || c == '\r' {
      ReadsShortEscape(QuoteChar(c)[1], rest);
    } else if c < ' ' || c == '\U{7F}' {
      ReadsBackControl(c, rest);
    } else if c == '\U{2028}' || c == '\U{2029}' {
      ReadsBackSeparator(c, rest);
    } else {
      ReadsBackRaw(c, rest);
    }
  }

  lemma {:induction false} ReadsBackBody(s: string, rest: string)
    ensures ReadBody(QuoteBody(s) + "\"" + rest) == Some((s, rest))
  {
    if s == [] {
      assert QuoteBody(s) + "\"" + rest == "\"" + rest;
    } else {
      var tail := QuoteBody(s[1..]) + "\"" + rest;
      assert QuoteBody(s) + "\"" + rest == QuoteChar(s[0]) + tail;
      ReadsBackChar(s[0], tail);
      ReadsBackBody(s[1..], rest);
      assert [s[0]] + s[1..] == s;
    }
  }

  /** Every text is read back as itself. */
  lemma QuoteRoundTrip(s: string)
    ensures ReadScalar(Quote(s)) == Some(s)
  {
    ReadsBackBody(s, "");
    assert Quote(s)[1..] == QuoteBody(s) + "\"" + "";
  }

  predicate OneLine(s: string) { forall i | 0 <= i < |s| :: s[i] != '\n' && s[i] != '\r' }

  lemma CharStaysOnLine(c: char)
    ensures OneLine(QuoteChar(c))
  {
    if c < ' ' { assert OneLine([HEX[c as int / 16], HEX[c as int % 16]]); }
  }

  /** Nothing that is quoted breaks the line. */
  lemma {:induction false} QuoteStaysOnLine(s: string)
    ensures OneLine(QuoteBody(s))
  {
    if s != [] {
      QuoteStaysOnLine(s[1..]);
      CharStaysOnLine(s[0]);
    }
  }
}
