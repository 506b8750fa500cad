// JSON string literals: JSON.stringify of a string, and the decoding of a literal (section 7 of RFC 8259).
module JsonString {
  import opened Order

  const QUOTE: char := '"'
  const BACKSLASH: char := '\\'

  function HexDigit(d: int): (c: char)
    requires 0 <= d < 16
  {
    if d < 10 then ('0' as int + d) as char else ('a' as int + d - 10) as char
  }

  function HexValue(c: char): (v: Option<int>)
    ensures v.Some? ==> 0 <= v.value < 16
  {
    if '0' <= c <= '9' then Some(c as int - '0' as int)
    else if 'a' <= c <= 'f' then Some(c as int - 'a' as int + 10)
    else if 'A' <= c <= 'F' then Some(c as int - 'A' as int + 10)
    else None
  }

  /** How JSON.stringify writes one character. */
  function QuoteChar(c: char): (s: string)
    ensures |s| >= 1
  {
    if c == QUOTE then [BACKSLASH, QUOTE]
    else if c == BACKSLASH then [BACKSLASH, BACKSLASH]
    else if c == 8 as char then [BACKSLASH, 'b']
    else if c == 12 as char then [BACKSLASH, 'f']
    else if c == '\n' then [BACKSLASH, 'n']
    else if c == '\r' then [BACKSLASH, 'r']
    else if c == '\t' then [BACKSLASH, 't']
    else if c < ' ' then [BACKSLASH, 'u', '0', '0', HexDigit(c as int / 16), HexDigit(c as int % 16)]
    else [c]
  }

  function QuoteBody(s: string): string {
    if s == "" then "" else QuoteChar(s[0]) + QuoteBody(s[1..])
  }

  function Quote(s: string): string { [QUOTE] + QuoteBody(s) + [QUOTE] }

  /** The code unit of four hexadecimal digits. */
  function CodeUnit(s: string): (u: Option<int>)
    ensures u.Some? ==> 0 <= u.value < 0x1_0000
  {
    if |s| < 4 then None
    else
      var a, b, c, d := HexValue(s[0]), HexValue(s[1]), HexValue(s[2]), HexValue(s[3]);
      if a.None? || b.None? || c.None? || d.None? then None
      else Some(((a.value * 16 + b.value) * 16 + c.value) * 16 + d.value)
  }

  predicate IsSurrogate(u: int) { 0xD800 <= u < 0xE000 }

  /** The character of a `\u` escape and how much of the input after the `u` it takes; half a pair alone is U+FFFD. */
  function UnicodeEscape(s: string): (r: Option<(char, int)>)
    ensures r.Some? ==> 4 <= r.value.1 <= |s|
  {
    var u := CodeUnit(s);
    if u.None? then None
    else if !IsSurrogate(u.value) then Some((u.value as char, 4))
    else if u.value < 0xDC00 && |s| >= 10 && s[4] == BACKSLASH && s[5] == 'u' then
      var low := CodeUnit(s[6..]);
      if low.Some? && 0xDC00 <= low.value < 0xE000 then
        Some(((0x1_0000 + (u.value - 0xD800) * 0x400 + (low.value - 0xDC00)) as char, 10))
      else Some((0xFFFD as char, 4))
    else Some((0xFFFD as char, 4))
  }

  /** The text up to the closing quote, which must end the input. */
  function UnquoteBody(s: string): (r: Option<string>)
    decreases |s|
  {
    if s == "" then None
    else if s[0] == QUOTE then if |s| == 1 then Some("") else None
    else if s[0] == BACKSLASH then
      if |s| < 2 then None
      else if s[1] == 'u' then
        var escape := UnicodeEscape(s[2..]);
        if escape.None? then None
        else Prepend(escape.value.0, UnquoteBody(s[2 + escape.value.1..]))
      else
        var c := Escaped(s[1]);
        if c.None? then None else Prepend(c.value, UnquoteBody(s[2..]))
    else if s[0] < ' ' then None
    else Prepend(s[0], UnquoteBody(s[1..]))
  }

  function Prepend(c: char, rest: Option<string>): Option<string> {
    if rest.None? then None else Some([c] + rest.value)
  }

  function Escaped(c: char): Option<char> {
    if c == QUOTE || c == BACKSLASH || c == '/' then Some(c)
    else if c == 'b' then Some(8 as char)
    else if c == 'f' then Some(12 as char)
    else if c == 'n' then Some('\n')
    else if c == 'r' then Some('\r')
    else if c == 't' then Some('\t')
    else None
  }

  /** Decodes a whole string literal. */
  function Unquote(s: string): Option<string> {
    if s == "" || s[0] != QUOTE then None else UnquoteBody(s[1..])
  }

  lemma HexReads(d: int)
    requires 0 <= d < 16
    ensures HexValue(HexDigit(d)) == Some(d)
  {
  }

  lemma CharReads(c: char, rest: string)
    ensures UnquoteBody(QuoteChar(c) + rest) == Prepend(c, UnquoteBody(rest))
  {
    var q := QuoteChar(c);
    var s := q + rest;
    if |q| == 1 {
      hide UnicodeEscape, Escaped;
      assert s[1..] == rest;
    } else if |q| == 2 {
      hide UnicodeEscape;
      assert s[2..] == rest && q[1] != 'u' && Escaped(q[1]) == Some(c);
    } else {
      UnicodeReads(c, rest);
      hide UnicodeEscape, Escaped;
      assert s[2..] == q[2..] + rest && s[2 + 4..] == rest && s[1] == 'u';
    }
  }

  lemma UnicodeReads(c: char, rest: string)
    requires c < ' ' && |QuoteChar(c)| > 2
    ensures |QuoteChar(c)| == 6 && UnicodeEscape(QuoteChar(c)[2..] + rest) == Some((c, 4))
  {
    HexReads(c as int / 16);
    HexReads(c as int % 16);
    var s := QuoteChar(c)[2..] + rest;
    assert s[0] == s[1] == '0' && s[2] == HexDigit(c as int / 16) && s[3] == HexDigit(c as int % 16);
    hide HexDigit, QuoteChar;
    assert CodeUnit(s) == Some(c as int);
  }

  lemma {:induction false} BodyReads(s: string)
    ensures UnquoteBody(QuoteBody(s) + [QUOTE]) == Some(s)
  {
    if s == "" {
      assert QuoteBody(s) + [QUOTE] == [QUOTE];
    } else {
      hide UnquoteBody, QuoteChar;
      BodyReads(s[1..]);
      CharReads(s[0], QuoteBody(s[1..]) + [QUOTE]);
      assert QuoteBody(s) + [QUOTE] == QuoteChar(s[0]) + (QuoteBody(s[1..]) + [QUOTE]);
      assert [s[0]] + s[1..] == s;
    }
  }

  /** Every string survives being written as a literal and decoded. */
  lemma QuoteReads(s: string)
    ensures Unquote(Quote(s)) == Some(s)
  {
    BodyReads(s);
    assert Quote(s)[1..] == QuoteBody(s) + [QUOTE];
  }

  // ---- The server's literals ----

  /** Characters encoding/json escapes in every string although JSON does not ask for it. */
  predicate IsHtmlEscaped(c: char) { c in "<>&" || c == 0x2028 as char || c == 0x2029 as char }

  /** How json.Marshal writes one character. */
  function MarshalChar(c: char): (s: string)
    ensures |s| == 1 || s == QuoteChar(c) || IsHtmlEscaped(c)
  {
    if !IsHtmlEscaped(c) then QuoteChar(c)
    else
      var high, low := c as int / 256, c as int % 256;
      [BACKSLASH, 'u', HexDigit(high / 16), HexDigit(high % 16), HexDigit(low / 16), HexDigit(low % 16)]
  }

  function MarshalBody(s: string): string {
    if s == "" then "" else MarshalChar(s[0]) + MarshalBody(s[1..])
  }

  function Marshal(s: string): string { [QUOTE] + MarshalBody(s) + [QUOTE] }

  lemma MarshaledReads(c: char, rest: string)
    ensures UnquoteBody(MarshalChar(c) + rest) == Prepend(c, UnquoteBody(rest))
  {
    if IsHtmlEscaped(c) {
      var q, high, low := MarshalChar(c), c as int / 256, c as int % 256;
      HexReads(high / 16);
      HexReads(high % 16);
      HexReads(low / 16);
      HexReads(low % 16);
      var s := q + rest;
      assert s[2..] == q[2..] + rest && s[2 + 4..] == rest;
      hide HexDigit, QuoteChar;
      assert CodeUnit(s[2..]) == Some(c as int);
      assert UnicodeEscape(s[2..]) == Some((c, 4));
    } else {
      CharReads(c, rest);
    }
  }

  lemma {:induction false} MarshalBodyReads(s: string)
    ensures UnquoteBody(MarshalBody(s) + [QUOTE]) == Some(s)
  {
    if s == "" {
      assert MarshalBody(s) + [QUOTE] == [QUOTE];
    } else {
      hide UnquoteBody, MarshalChar;
      MarshalBodyReads(s[1..]);
      MarshaledReads(s[0], MarshalBody(s[1..]) + [QUOTE]);
      assert MarshalBody(s) + [QUOTE] == MarshalChar(s[0]) + (MarshalBody(s[1..]) + [QUOTE]);
      assert [s[0]] + s[1..] == s;
    }
  }

  /** The server's literal stands for the same string, and is shorter nowhere. */
  lemma {:induction false} MarshalIsLonger(s: string)
    ensures |MarshalBody(s)| >= |QuoteBody(s)|
    ensures (exists i :: 0 <= i < |s| && IsHtmlEscaped(s[i])) ==> |MarshalBody(s)| > |QuoteBody(s)|
    ensures (forall i :: 0 <= i < |s| ==> !IsHtmlEscaped(s[i])) ==> MarshalBody(s) == QuoteBody(s)
  {
    if s != "" {
      MarshalIsLonger(s[1..]);
      assert IsHtmlEscaped(s[0]) ==> |QuoteChar(s[0])| == 1 && |MarshalChar(s[0])| == 6;
      hide IsHtmlEscaped, QuoteChar;
      assert forall i :: 0 < i < |s| ==> s[i] == s[1..][i - 1];
    }
  }

  /** Both literals read as the string they were written for; they are the same text exactly
      without the five characters. */
  lemma LiteralsAgreeIff(s: string)
    ensures Unquote(Marshal(s)) == Unquote(Quote(s)) == Some(s)
    ensures Marshal(s) == Quote(s) <==> forall i :: 0 <= i < |s| ==> !IsHtmlEscaped(s[i])
    ensures |Marshal(s)| == |Quote(s)| <==> forall i :: 0 <= i < |s| ==> !IsHtmlEscaped(s[i])
  {
    QuoteReads(s);
    MarshalBodyReads(s);
    MarshalIsLonger(s);
    assert Marshal(s)[1..] == MarshalBody(s) + [QUOTE];
  }
}
