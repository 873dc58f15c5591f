/**
 * strconv.Quote, which `addImport` uses to turn a package name into an
 * import path literal, together with the inverse that reads such a
 * literal back. ASCII characters are escaped exactly as Go escapes them;
 * characters above U+007F are kept as they are.
 */
module StrConv {
  import opened Results

  /** The characters Go writes with a backslash: the quote, the backslash and the ASCII controls. */
  predicate NeedsEscape(c: char) {
    c == '"' || c == '\\' || c < ' ' || c == '\U{7F}'
  }

  function LowerHexDigit(v: nat): (c: char)
    requires v < 16
    ensures ('0' <= c <= '9' || 'a' <= c <= 'f')
  {
    if v < 10 then ('0' as int + v) as char else ('a' as int + v - 10) as char
  }

  /** strconv's escape of one character inside double quotes. */
  function QuoteChar(c: char): (r: string)
    ensures |r| >= 1
    ensures !NeedsEscape(c) <==> r == [c]
    ensures NeedsEscape(c) ==> r[0] == '\\'
  {
    if c == '"' then "\\\""
    else if c == '\\' then "\\\\"
    else if c == '\U{07}' then "\\a"
    else if c == '\U{08}' then "\\b"
    else if c == '\U{0C}' then "\\f"
    else if c == '\n' then "\\n"
    else if c == '\r' then "\\r"
    else if c == '\t' then "\\t"
    else if c == '\U{0B}' then "\\v"
    else if c < ' ' || c == '\U{7F}' then
      "\\x" + [LowerHexDigit(c as int / 16), LowerHexDigit(c as int % 16)]
    else [c]
  }

  function QuoteBody(s: string): string
    decreases |s|
  {
    if s == [] then [] else QuoteChar(s[0]) + QuoteBody(s[1..])
  }

  /** strconv.Quote: the escaped characters between double quotes. */
  function Quote(s: string): string {
    "\"" + QuoteBody(s) + "\""
  }

  // ---------------------------------------------------------------------
  // The inverse: reading the literal back
  // ---------------------------------------------------------------------

  function HexDigitValue(c: char): Option<nat> {
    if '0' <= c <= '9' then Some(c as int - '0' as int)
    else if 'a' <= c <= 'f' then Some(c as int - 'a' as int + 10)
    else if 'A' <= c <= 'F' then Some(c as int - 'A' as int + 10)
    else None
  }

  /** The character a one-letter escape stands for. */
  function SimpleEscape(e: char): Option<char> {
    if e == '"' then Some('"')
    else if e == '\\' then Some('\\')
    else if e == 'a' then Some('\U{07}')
    else if e == 'b' then Some('\U{08}')
    else if e == 'f' then Some('\U{0C}')
    else if e == 'n' then Some('\n')
    else if e == 'r' then Some('\r')
    else if e == 't' then Some('\t')
    else if e == 'v' then Some('\U{0B}')
    else None
  }

  function Prepend(c: char, r: Option<string>): Option<string> {
    if r.Some? then Some([c] + r.value) else None
  }

  /** The characters a quoted body stands for, or None when it is not a valid body. */
  function UnquoteBody(t: string): Option<string>
    decreases |t|
  {
    if t == [] then Some([])
    else if t[0] != '\\' then
      if NeedsEscape(t[0]) then None else Prepend(t[0], UnquoteBody(t[1..]))
    else if |t| < 2 then None
    else if t[1] == 'x' then
      if |t| < 4 then None
      else
        var hi := HexDigitValue(t[2]);
        var lo := HexDigitValue(t[3]);
        if hi.None? || lo.None? then None
        else Prepend((hi.value * 16 + lo.value) as char, UnquoteBody(t[4..]))
    else
      var e := SimpleEscape(t[1]);
      if e.None? then None else Prepend(e.value, UnquoteBody(t[2..]))
  }

  /** strconv.Unquote restricted to double-quoted literals of the form Quote produces. */
  function Unquote(q: string): Option<string> {
    if |q| >= 2 && q[0] == '"' && q[|q| - 1] == '"' then UnquoteBody(q[1..|q| - 1]) else None
  }

  lemma HexRoundTrip(c: char)
    requires c < ' ' || c == '\U{7F}'
    ensures HexDigitValue(LowerHexDigit(c as int / 16)) == Some(c as int / 16)
    ensures HexDigitValue(LowerHexDigit(c as int % 16)) == Some(c as int % 16)
    ensures (c as int / 16) * 16 + c as int % 16 == c as int
  {
  }

  /** One escaped character reads back as that character. */
  lemma UnquoteChar(c: char, rest: string)
    ensures UnquoteBody(QuoteChar(c) + rest) == Prepend(c, UnquoteBody(rest))
  {
    var q := QuoteChar(c);
    if NeedsEscape(c) && (c < ' ' || c == '\U{7F}') && c !in {'\U{07}', '\U{08}', '\U{0C}', '\n', '\r', '\t', '\U{0B}'} {
      HexRoundTrip(c);
      assert (q + rest)[4..] == rest;
    } else if NeedsEscape(c) {
      assert (q + rest)[2..] == rest;
    } else {
      assert (q + rest)[1..] == rest;
    }
  }

  /** The quoted body reads back as the original text. */
  lemma {:induction false} UnquoteQuoteBody(s: string)
    ensures UnquoteBody(QuoteBody(s)) == Some(s)
    decreases |s|
  {
    if s != [] {
      UnquoteQuoteBody(s[1..]);
      UnquoteChar(s[0], QuoteBody(s[1..]));
      assert [s[0]] + s[1..] == s;
    }
  }

  /** Quote loses nothing: unquoting its result gives the text back. */
  lemma UnquoteQuote(s: string)
    ensures Unquote(Quote(s)) == Some(s)
  {
    var q := Quote(s);
    assert q[1..|q| - 1] == QuoteBody(s);
    UnquoteQuoteBody(s);
  }

  /** Text with nothing to escape, such as a package name, is quoted by adding the two quotes. */
  lemma QuotePlain(s: string)
    requires forall k :: 0 <= k < |s| ==> !NeedsEscape(s[k])
    ensures Quote(s) == "\"" + s + "\""
  {
    QuoteBodyPlain(s);
  }

  lemma {:induction false} QuoteBodyPlain(s: string)
    requires forall k :: 0 <= k < |s| ==> !NeedsEscape(s[k])
    ensures QuoteBody(s) == s
    decreases |s|
  {
    if s != [] {
      QuoteBodyPlain(s[1..]);
      assert [s[0]] + s[1..] == s;
    }
  }
}
