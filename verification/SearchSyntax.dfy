// The search language: splitting into tokens, reading terms, and the browser's serializer that inverts it.
module SearchSyntax {
  import opened JsonString
  import opened Order

  /** A filter on a built-in field, or on an attribute or resource attribute of a literal key. */
  datatype Term = Term(field: Option<string>, resource: bool, key: string, value: string, quoted: bool, negated: bool)

  const LOG_FIELDS: seq<string> := ["trace_id", "span_id", "service_name", "severity_text", "severity_number", "body"]

  predicate IsBlank(c: char) { c == ' ' || c == '\t' || c == '\r' || c == '\n' }

  /** What `\s` matches in a JavaScript regular expression. */
  predicate IsSpace(c: char) {
    || IsBlank(c) || c == 0x0B as char || c == 0x0C as char || c == 0xA0 as char || c == 0x1680 as char
    || 0x2000 as char <= c <= 0x200A as char || c == 0x2028 as char || c == 0x2029 as char
    || c == 0x202F as char || c == 0x205F as char || c == 0x3000 as char || c == 0xFEFF as char
  }

  predicate HasPrefix(s: string, prefix: string) { prefix <= s }

  function IndexOf(s: string, c: char): (i: Option<nat>)
    ensures i.Some? ==> i.value < |s| && s[i.value] == c && forall j :: 0 <= j < i.value ==> s[j] != c
    ensures i.None? ==> forall j :: 0 <= j < |s| ==> s[j] != c
  {
    if s == "" then None
    else if s[0] == c then Some(0)
    else
      var rest := IndexOf(s[1..], c);
      if rest.None? then None else Some(rest.value + 1)
  }

  // ---- Tokens ----

  datatype Scan = Scan(tokens: seq<string>, current: string, quoted: bool, escaped: bool)

  const START: Scan := Scan([], "", false, false)

  function Finished(s: Scan): seq<string> { if s.current == "" then s.tokens else s.tokens + [s.current] }

  /** Blanks split tokens except between quotes, where a backslash takes the next character along. */
  function Step(s: Scan, c: char): Scan {
    if s.escaped then s.(current := s.current + [c], escaped := false)
    else if s.quoted && c == BACKSLASH then s.(current := s.current + [c], escaped := true)
    else
      var quoted := if c == QUOTE then !s.quoted else s.quoted;
      if !quoted && IsBlank(c) then Scan(Finished(s), "", quoted, false)
      else s.(current := s.current + [c], quoted := quoted)
  }

  function ScanFrom(s: Scan, text: string): Scan
    decreases |text|
  {
    if text == "" then s else ScanFrom(Step(s, text[0]), text[1..])
  }

  /** `None` when a quote is left open. */
  function Tokens(search: string): Option<seq<string>> {
    var end := ScanFrom(START, search);
    if end.quoted then None else Some(Finished(end))
  }

  method Tokenize(search: string) returns (tokens: Option<seq<string>>)
    ensures tokens == Tokens(search)
  {
    var start, quoted, escaped, found := 0, false, false, [];
    for i := 0 to |search|
      invariant 0 <= start <= i
      invariant ScanFrom(Scan(found, search[start..i], quoted, escaped), search[i..]) == ScanFrom(START, search)
    {
      var c := search[i];
      ghost var before := Scan(found, search[start..i], quoted, escaped);
      assert search[i..][0] == c && search[i..][1..] == search[i + 1..];
      ScanOne(before, c, search[i + 1..]);
      assert search[i..] == [c] + search[i + 1..];
      hide ScanFrom;
      assert search[start..i] + [c] == search[start..i + 1] && search[i + 1..i + 1] == "";
      if escaped { escaped := false; continue; }
      if quoted && c == BACKSLASH { escaped := true; continue; }
      if c == QUOTE { quoted := !quoted; }
      if !quoted && IsBlank(c) {
        if start < i { found := found + [search[start..i]]; }
        start := i + 1;
      }
    }
    assert search[|search|..] == "" && search[start..|search|] == search[start..];
    if quoted { return None; }
    if start < |search| { found := found + [search[start..]]; }
    return Some(found);
  }

  // ---- Terms ----

  datatype Reading = PlainText | Malformed | IsTerm(term: Term)

  /** What a token says: free text, a filter, or a filter that cannot be read. */
  function ReadToken(token: string, fields: seq<string>): Reading {
    var colon := IndexOf(token, ':');
    if colon.None? then PlainText
    else
      var name, value := token[..colon.value], token[colon.value + 1..];
      var negated := HasPrefix(name, "-");
      ReadField(if negated then name[1..] else name, value, negated, fields)
  }

  function ReadField(field: string, value: string, negated: bool, fields: seq<string>): Reading {
    var resource, builtin := HasPrefix(field, "resource."), field in fields;
    if !resource && !HasPrefix(field, "attributes.") && !builtin then PlainText
    else
      var key := if builtin then field else AfterDot(field);
      if key == "" || value == "" then Malformed
      else ReadValue(Term(if builtin then Some(field) else None, resource, key, value, false, negated))
  }

  function AfterDot(field: string): string {
    var dot := IndexOf(field, '.');
    if dot.None? then "" else field[dot.value + 1..]
  }

  /** Decodes the literal in a `"..."` or `~"..."` value; only the former is taken literally. */
  function ReadValue(term: Term): Reading {
    var wildcard := HasPrefix(term.value, "~\"");
    if HasPrefix(term.value, "\"") || wildcard then
      var text := Unquote(if wildcard then term.value[1..] else term.value);
      if text.None? then Malformed else IsTerm(term.(value := text.value, quoted := !wildcard))
    else IsTerm(term)
  }

  /** Free text and filters of a token list; `None` if one cannot be read. */
  function Collected(tokens: seq<string>, fields: seq<string>): Option<(seq<string>, seq<Term>)> {
    if tokens == [] then Some(([], []))
    else
      var n := |tokens| - 1;
      var before := Collected(tokens[..n], fields);
      if before.None? then None
      else
        match ReadToken(tokens[n], fields)
        case PlainText => Some((before.value.0 + [tokens[n]], before.value.1))
        case Malformed => None
        case IsTerm(term) => Some((before.value.0, before.value.1 + [term]))
  }

  function WithoutAnd(text: seq<string>): seq<string> {
    if text == [] then []
    else
      var n := |text| - 1;
      WithoutAnd(text[..n]) + (if text[n] == "AND" then [] else [text[n]])
  }

  function Joined(parts: seq<string>): string {
    if parts == [] then ""
    else if |parts| == 1 then parts[0]
    else Joined(parts[..|parts| - 1]) + " " + parts[|parts| - 1]
  }

  /** Free text to search for, and the filters; a search that cannot be read is all free text. */
  function Parsed(search: string, fields: seq<string>): (string, seq<Term>) {
    var tokens := Tokens(search);
    if tokens.None? then (search, [])
    else
      var collected := Collected(tokens.value, fields);
      if collected.None? || collected.value.1 == [] then (search, [])
      else (Joined(WithoutAnd(collected.value.0)), collected.value.1)
  }

  /** The value of a filter as the server reads it. */
  method ReadServerValue(read: Term) returns (r: Reading)
    requires !read.quoted
    ensures r == ReadValue(read)
  {
    hide Unquote;
    var term, value := read, read.value;
    var wildcard := HasPrefix(value, "~\"");
    if HasPrefix(value, "\"") || wildcard {
      if wildcard { value := value[1..]; }
      var text := Unquote(value);
      if text.None? { return Malformed; }
      term := term.(value := text.value, quoted := !wildcard);
    }
    return IsTerm(term);
  }

  /** One token as the server reads it. */
  method ReadServerToken(token: string, fields: seq<string>) returns (r: Reading)
    ensures r == ReadToken(token, fields)
  {
    hide ReadValue, AfterDot;
    var cut := IndexOf(token, ':');
    var field, value := token, "";
    if cut.Some? { field, value := token[..cut.value], token[cut.value + 1..]; }
    hide IndexOf;
    var negated := HasPrefix(field, "-");
    if negated { field := field[1..]; }
    var resource := HasPrefix(field, "resource.");
    var builtin := field in fields;
    if cut.None? || (!resource && !HasPrefix(field, "attributes.") && !builtin) { return PlainText; }
    var key := AfterDot(field);
    if builtin { key := field; }
    if key == "" || value == "" { return Malformed; }
    var term := Term(None, resource, key, value, false, negated);
    if builtin { term := term.(field := Some(field)); }
    r := ReadServerValue(term);
  }

  method ReadBrowserValue(term: Term) returns (r: Reading)
    requires !term.quoted
    ensures r == ReadValue(term)
  {
    hide Unquote;
    var value := term.value;
    var quoted, wildcard := HasPrefix(value, "\""), HasPrefix(value, "~\"");
    if quoted || wildcard {
      var text := Unquote(if wildcard then value[1..] else value);
      if text.None? { return Malformed; }
      value := text.value;
    }
    assert quoted ==> term.value[0] == QUOTE;
    assert wildcard ==> term.value[0] == '~';
    return IsTerm(term.(value := value, quoted := quoted));
  }

  method ReadBrowserField(field: string, value: string, negated: bool, fields: seq<string>) returns (r: Reading)
    ensures r == ReadField(field, value, negated, fields)
  {
    hide ReadValue;
    var resource := HasPrefix(field, "resource.");
    if !resource && !HasPrefix(field, "attributes.") && field !in fields { return PlainText; }
    var dot := IndexOf(field, '.');
    var key := if field in fields then field else field[if dot.None? then 0 else dot.value + 1..];
    if field !in fields { NamespaceHasDot(field); }
    if key == "" || value == "" { return Malformed; }
    hide IndexOf;
    r := ReadBrowserValue(Term(if field in fields then Some(field) else None, resource, key, value, false, negated));
  }

  lemma NamespaceHasDot(field: string)
    requires HasPrefix(field, "resource.") || HasPrefix(field, "attributes.")
    ensures IndexOf(field, '.').Some?
  {
    if HasPrefix(field, "resource.") { assert field[8] == '.'; } else { assert field[10] == '.'; }
  }

  /** The same token as the browser reads it. */
  method ReadBrowserToken(token: string, fields: seq<string>) returns (r: Reading)
    ensures r == ReadToken(token, fields)
  {
    hide ReadField;
    var colon := IndexOf(token, ':');
    if colon.None? { return PlainText; }
    var negated := HasPrefix(token, "-");
    assert negated ==> token[0] == '-' && colon.value >= 1;
    assert HasPrefix(token[..colon.value], "-") == negated;
    var field := token[if negated then 1 else 0..colon.value];
    assert field == if negated then token[..colon.value][1..] else token[..colon.value];
    r := ReadBrowserField(field, token[colon.value + 1..], negated, fields);
  }

  method ParseSignalSearch(search: string, fields: seq<string>) returns (plain: string, terms: seq<Term>)
    ensures (plain, terms) == Parsed(search, fields)
  {
    hide ReadToken, Tokens;
    var tokens := Tokenize(search);
    if tokens.None? { return search, []; }
    var text: seq<string> := [];
    terms := [];
    for i := 0 to |tokens.value|
      invariant Collected(tokens.value[..i], fields) == Some((text, terms))
    {
      var token := tokens.value[i];
      assert tokens.value[..i + 1][..i] == tokens.value[..i];
      var reading := ReadServerToken(token, fields);
      match reading
      case PlainText => text := text + [token];
      case Malformed =>
        CollectedFails(tokens.value, fields, i + 1);
        return search, [];
      case IsTerm(term) => terms := terms + [term];
    }
    assert tokens.value[..|tokens.value|] == tokens.value;
    if terms == [] { return search, []; }
    var kept: seq<string> := [];
    for i := 0 to |text|
      invariant kept == WithoutAnd(text[..i])
    {
      assert text[..i + 1][..i] == text[..i];
      if text[i] != "AND" { kept := kept + [text[i]]; }
    }
    assert text[..|text|] == text;
    plain := Joined(kept);
  }

  /** The browser's parser, which must stay aligned with the server's. */
  method ParseLogSearch(search: string, fields: seq<string>) returns (plain: string, terms: seq<Term>)
    ensures (plain, terms) == Parsed(search, fields)
  {
    hide ReadToken, Tokens;
    var tokens := Tokenize(search);
    if tokens.None? { return search, []; }
    var text: seq<string> := [];
    terms := [];
    for i := 0 to |tokens.value|
      invariant Collected(tokens.value[..i], fields) == Some((text, terms))
    {
      var token := tokens.value[i];
      assert tokens.value[..i + 1][..i] == tokens.value[..i];
      var reading := ReadBrowserToken(token, fields);
      match reading
      case PlainText => text := text + [token];
      case Malformed =>
        CollectedFails(tokens.value, fields, i + 1);
        return search, [];
      case IsTerm(term) => terms := terms + [term];
    }
    assert tokens.value[..|tokens.value|] == tokens.value;
    if terms == [] { return search, []; }
    plain := Joined(WithoutAnd(text));
  }

  lemma {:induction false} CollectedFails(tokens: seq<string>, fields: seq<string>, n: nat)
    requires n <= |tokens| && Collected(tokens[..n], fields).None?
    ensures Collected(tokens, fields).None?
    decreases |tokens|
  {
    hide ReadToken;
    if n < |tokens| {
      var shorter := tokens[..|tokens| - 1];
      assert shorter[..n] == tokens[..n];
      CollectedFails(shorter, fields, n);
    } else {
      assert tokens[..n] == tokens;
    }
  }

  // ---- Serializing ----

  function TermKey(t: Term): string {
    if t.field.Some? then t.field.value else (if t.resource then "resource" else "attributes") + "." + t.key
  }

  predicate NeedsQuotes(value: string) { exists i :: 0 <= i < |value| && (IsSpace(value[i]) || value[i] == QUOTE) }

  function ValueText(t: Term): string {
    if t.quoted then Quote(t.value) else if NeedsQuotes(t.value) then "~" + Quote(t.value) else t.value
  }

  function Serialize(t: Term): string {
    (if t.negated then "-" else "") + (TermKey(t) + (":" + ValueText(t)))
  }

  /** A key free of what would end or split it. */
  predicate IsPlainKey(key: string) {
    key != "" && forall i :: 0 <= i < |key| ==> !IsSpace(key[i]) && key[i] != ':' && key[i] != QUOTE
  }

  predicate IsName(f: string) {
    f != "" && forall i :: 0 <= i < |f| ==> 'a' <= f[i] <= 'z' || f[i] == '_'
  }

  predicate AreNames(fields: seq<string>) { forall i :: 0 <= i < |fields| ==> IsName(fields[i]) }

  /** A term the language can express; any value is allowed, but only a quoted one may be empty. */
  predicate WellFormed(t: Term, fields: seq<string>) {
    && (t.field.Some? ==> t.field.value in fields && t.key == t.field.value && !t.resource)
    && (t.field.None? ==> IsPlainKey(t.key))
    && (!t.quoted ==> t.value != "")
  }

  predicate IsSolid(s: string) { forall i :: 0 <= i < |s| ==> !IsBlank(s[i]) && s[i] != QUOTE }

  lemma {:induction false} ScanTwice(s: Scan, a: string, b: string)
    ensures ScanFrom(s, a + b) == ScanFrom(ScanFrom(s, a), b)
    decreases |a|
  {
    if a == "" {
      assert a + b == b;
    } else {
      assert (a + b)[1..] == a[1..] + b;
      ScanTwice(Step(s, a[0]), a[1..], b);
    }
  }

  lemma {:induction false} ScanSolid(s: Scan, text: string)
    requires !s.quoted && !s.escaped && IsSolid(text)
    ensures ScanFrom(s, text) == s.(current := s.current + text)
    decreases |text|
  {
    if text == "" {
      assert s.current + text == s.current;
    } else {
      ScanSolid(s.(current := s.current + [text[0]]), text[1..]);
      assert s.current + [text[0]] + text[1..] == s.current + text;
    }
  }

  lemma ScanQuoteChar(s: Scan, c: char)
    requires s.quoted && !s.escaped
    ensures ScanFrom(s, QuoteChar(c)) == s.(current := s.current + QuoteChar(c))
  {
    var q := QuoteChar(c);
    if |q| == 1 {
      assert q[1..] == "";
    } else {
      var escaped := Step(s, q[0]);
      var past := Step(escaped, q[1]);
      assert past == s.(current := s.current + [q[0]] + [q[1]]);
      if |q| == 2 {
        assert ScanFrom(escaped, q[1..]) == ScanFrom(past, "");
        assert [q[0]] + [q[1]] == q;
        assert s.current + [q[0]] + [q[1]] == s.current + q;
      } else {
        assert q[1..][1..] == q[2..];
        ScanPastUnicode(past, q[2..]);
        assert s.current + [q[0]] + [q[1]] + q[2..] == s.current + q;
      }
    }
  }

  lemma {:induction false} ScanPastUnicode(s: Scan, text: string)
    requires s.quoted && !s.escaped && forall i :: 0 <= i < |text| ==> text[i] != BACKSLASH && text[i] != QUOTE
    ensures ScanFrom(s, text) == s.(current := s.current + text)
    decreases |text|
  {
    if text == "" {
      assert s.current + text == s.current;
    } else {
      ScanPastUnicode(s.(current := s.current + [text[0]]), text[1..]);
      assert s.current + [text[0]] + text[1..] == s.current + text;
    }
  }

  lemma {:induction false} ScanQuoteBody(s: Scan, text: string)
    requires s.quoted && !s.escaped
    ensures ScanFrom(s, QuoteBody(text)) == s.(current := s.current + QuoteBody(text))
    decreases |text|
  {
    hide QuoteChar, Step;
    if text == "" {
      assert s.current + "" == s.current;
    } else {
      var first, rest := QuoteChar(text[0]), QuoteBody(text[1..]);
      assert QuoteBody(text) == first + rest;
      hide ScanFrom;
      ScanQuoteChar(s, text[0]);
      ScanQuoteBody(s.(current := s.current + first), text[1..]);
      ScanTwice(s, first, rest);
      assert s.current + first + rest == s.current + (first + rest);
    }
  }

  lemma ScanOne(s: Scan, c: char, text: string)
    ensures ScanFrom(s, [c] + text) == ScanFrom(Step(s, c), text) && ScanFrom(s, [c]) == Step(s, c)
  {
    hide Step;
    assert ([c] + text)[1..] == text && [c][1..] == "" && ScanFrom(Step(s, c), "") == Step(s, c);
  }

  /** A literal stays in one piece whatever blanks, quotes and backslashes its text holds. */
  lemma ScanQuoted(s: Scan, text: string)
    requires !s.quoted && !s.escaped
    ensures ScanFrom(s, Quote(text)) == s.(current := s.current + Quote(text))
  {
    hide ScanFrom, QuoteBody;
    var open := s.(current := s.current + [QUOTE], quoted := true);
    var body := QuoteBody(text);
    var inside := open.(current := open.current + body);
    assert Quote(text) == [QUOTE] + (body + [QUOTE]);
    ScanOne(s, QUOTE, body + [QUOTE]);
    ScanTwice(open, body, [QUOTE]);
    ScanQuoteBody(open, text);
    ScanOne(inside, QUOTE, "");
    assert s.current + [QUOTE] + body + [QUOTE] == s.current + ([QUOTE] + (body + [QUOTE]));
  }

  lemma NameIsSolid(t: Term, fields: seq<string>)
    requires AreNames(fields) && WellFormed(t, fields)
    ensures IsSolid(TermKey(t)) && forall i :: 0 <= i < |TermKey(t)| ==> TermKey(t)[i] != ':'
  {
    if t.field.Some? {
      var i :| 0 <= i < |fields| && fields[i] == t.field.value;
      assert IsName(fields[i]);
    }
  }

  lemma ScanValue(s: Scan, t: Term)
    requires !s.quoted && !s.escaped
    ensures ScanFrom(s, ValueText(t)) == s.(current := s.current + ValueText(t))
  {
    hide Quote, Step;
    if t.quoted {
      ScanQuoted(s, t.value);
    } else if NeedsQuotes(t.value) {
      ScanSolid(s, "~");
      ScanTwice(s, "~", Quote(t.value));
      ScanQuoted(s.(current := s.current + "~"), t.value);
      assert s.current + "~" + Quote(t.value) == s.current + ("~" + Quote(t.value));
    } else {
      ScanSolid(s, t.value);
    }
  }

  lemma SolidAppend(a: string, b: string)
    requires IsSolid(a) && IsSolid(b)
    ensures IsSolid(a + b)
  {
  }

  /** What stands before a term's value. */
  function Name(t: Term): string { (if t.negated then "-" else "") + TermKey(t) + ":" }

  lemma SignsAreSolid()
    ensures IsSolid("") && IsSolid("-") && IsSolid(":")
  {
  }

  lemma SerializedParts(t: Term, fields: seq<string>)
    requires AreNames(fields) && WellFormed(t, fields)
    ensures Serialize(t) == Name(t) + ValueText(t) && IsSolid(Name(t))
  {
    hide ValueText, TermKey, WellFormed, AreNames, IsSolid;
    NameIsSolid(t, fields);
    SignsAreSolid();
    var sign := if t.negated then "-" else "";
    SolidAppend(sign, TermKey(t));
    SolidAppend(sign + TermKey(t), ":");
    assert sign + TermKey(t) + ":" + ValueText(t) == sign + (TermKey(t) + (":" + ValueText(t)));
  }

  /** A serialized term is one token. */
  lemma ScanSerialized(s: Scan, t: Term, fields: seq<string>)
    requires !s.quoted && !s.escaped && AreNames(fields) && WellFormed(t, fields)
    ensures ScanFrom(s, Serialize(t)) == s.(current := s.current + Serialize(t))
  {
    hide ValueText, Name, WellFormed, AreNames, IsSolid, Serialize, ScanFrom, Step;
    SerializedParts(t, fields);
    var name, value := Name(t), ValueText(t);
    ScanSolid(s, name);
    ScanTwice(s, name, value);
    ScanValue(s.(current := s.current + name), t);
    assert s.current + name + value == s.current + (name + value);
  }

  lemma NamesHaveNoDot(fields: seq<string>, k: string)
    requires AreNames(fields) && k in fields
    ensures k != "" && k[0] != '-' && forall i :: 0 <= i < |k| ==> k[i] != '.'
  {
    var i :| 0 <= i < |fields| && fields[i] == k;
    assert IsName(fields[i]);
  }

  lemma AttributeName(t: Term)
    requires t.field.None?
    ensures var k := TermKey(t);
      && k != "" && k[0] != '-' && '.' in k && AfterDot(k) == t.key
      && HasPrefix(k, "resource.") == t.resource && (!t.resource ==> HasPrefix(k, "attributes."))
  {
    var k, prefix := TermKey(t), if t.resource then "resource" else "attributes";
    assert k[|prefix|] == '.' && k[|prefix| + 1..] == t.key && k[0] == prefix[0];
    assert forall j :: 0 <= j < |prefix| ==> k[j] == prefix[j] != '.';
    assert IndexOf(k, '.') == Some(|prefix|);
    assert k[..|prefix| + 1] == prefix + ".";
  }

  lemma NotNegatedTwice(t: Term, fields: seq<string>)
    requires AreNames(fields) && WellFormed(t, fields)
    ensures TermKey(t) != "" && TermKey(t)[0] != '-'
    ensures t.field.Some? ==> TermKey(t) in fields && !HasPrefix(TermKey(t), "resource.")
    ensures t.field.None? ==> TermKey(t) !in fields && AfterDot(TermKey(t)) == t.key
    ensures t.field.None? ==> HasPrefix(TermKey(t), "resource.") == t.resource
    ensures t.field.None? && !t.resource ==> HasPrefix(TermKey(t), "attributes.")
  {
    var k := TermKey(t);
    if k in fields { NamesHaveNoDot(fields, k); }
    if t.field.Some? {
      assert |k| > 8 ==> k[8] != '.';
    } else {
      AttributeName(t);
    }
    hide AreNames, AfterDot;
  }

  lemma ValueReads(t: Term)
    requires !t.quoted ==> t.value != ""
    ensures ValueText(t) != "" && ReadValue(t.(value := ValueText(t), quoted := false)) == IsTerm(t)
  {
    hide Quote, Unquote;
    QuoteReads(t.value);
    QuoteStarts(t.value);
    if !t.quoted && NeedsQuotes(t.value) {
      assert ("~" + Quote(t.value))[1..] == Quote(t.value);
      assert ("~" + Quote(t.value))[..2] == "~\"";
    } else if !t.quoted {
      assert |t.value| > 1 ==> t.value[1] != QUOTE;
    }
  }

  lemma QuoteStarts(s: string)
    ensures |Quote(s)| >= 2 && Quote(s)[0] == QUOTE && HasPrefix(Quote(s), "\"")
  {
  }

  lemma SplitsAtColon(name: string, value: string)
    requires forall j :: 0 <= j < |name| ==> name[j] != ':'
    ensures var token := name + ":" + value;
      IndexOf(token, ':') == Some(|name|) && token[..|name|] == name && token[|name| + 1..] == value
  {
    var token := name + ":" + value;
    assert token[|name|] == ':' && forall j :: 0 <= j < |name| ==> token[j] == name[j];
  }

  lemma FieldReads(t: Term, fields: seq<string>)
    requires AreNames(fields) && WellFormed(t, fields)
    ensures ReadField(TermKey(t), ValueText(t), t.negated, fields) == IsTerm(t)
  {
    NotNegatedTwice(t, fields);
    ValueReads(t);
    KeysOfTerm(t, fields);
    var k := TermKey(t);
    hide ValueText, TermKey, AfterDot, AreNames, WellFormed, ReadValue, HasPrefix;
    assert t.(value := ValueText(t), quoted := false) == Term(
      if k in fields then Some(k) else None, t.resource, if k in fields then k else AfterDot(k), ValueText(t), false,
      t.negated);
  }

  /** Reading a serialized term gives the term back. */
  lemma TermReads(t: Term, fields: seq<string>)
    requires AreNames(fields) && WellFormed(t, fields)
    ensures Serialize(t) != "" && ReadToken(Serialize(t), fields) == IsTerm(t)
  {
    NameIsSolid(t, fields);
    NotNegatedTwice(t, fields);
    FieldReads(t, fields);
    hide ValueText, TermKey, AreNames, IsSolid, ReadField, WellFormed, IndexOf;
    var k := TermKey(t);
    var name := (if t.negated then "-" else "") + k;
    assert Serialize(t) == name + ":" + ValueText(t);
    SplitsAtColon(name, ValueText(t));
    assert HasPrefix(name, "-") == t.negated && (if t.negated then name[1..] else name) == k;
  }

  lemma KeysOfTerm(t: Term, fields: seq<string>)
    requires AreNames(fields) && WellFormed(t, fields)
    ensures t.key != "" && (t.field.Some? ==> t.field.value == TermKey(t) == t.key && !t.resource)
  {
    if t.field.Some? { NamesHaveNoDot(fields, t.field.value); }
  }

  function SerializedAll(terms: seq<Term>): (s: seq<string>)
    ensures |s| == |terms|
  {
    if terms == [] then [] else SerializedAll(terms[..|terms| - 1]) + [Serialize(terms[|terms| - 1])]
  }

  predicate AllWellFormed(terms: seq<Term>, fields: seq<string>) {
    AreNames(fields) && forall i :: 0 <= i < |terms| ==> WellFormed(terms[i], fields)
  }

  /** A piece of text that is not split, wherever it stands between blanks. */
  ghost predicate IsOneToken(part: string) {
    part != "" && forall s: Scan :: !s.quoted && !s.escaped ==> ScanFrom(s, part) == s.(current := s.current + part)
  }

  /** A blank after some tokens ends the last of them. */
  lemma BlankSplits(before: seq<string>, last: string, blank: char)
    requires last != "" && (blank == ' ' || blank == '\t' || blank == '\r' || blank == '\n')
    ensures ScanFrom(Scan(before, last, false, false), [blank]) == Scan(before + [last], "", false, false)
  {
    var s := Scan(before, last, false, false);
    assert [blank][1..] == "" && ScanFrom(Step(s, blank), "") == Step(s, blank);
  }

  lemma JoinedMore(parts: seq<string>)
    requires |parts| > 1
    ensures Joined(parts) == Joined(parts[..|parts| - 1]) + " " + parts[|parts| - 1]
  {
  }

  lemma PartIsScanned(s: Scan, part: string)
    requires IsOneToken(part) && !s.quoted && !s.escaped
    ensures part != "" && ScanFrom(s, part) == s.(current := s.current + part)
  {
  }

  lemma {:induction false} ScanParts(parts: seq<string>)
    requires parts != [] && forall i :: 0 <= i < |parts| ==> IsOneToken(parts[i])
    ensures ScanFrom(START, Joined(parts)) == Scan(parts[..|parts| - 1], parts[|parts| - 1], false, false)
  {
    hide Step, IsBlank, Finished, ScanFrom, Joined, IsOneToken;
    var n := |parts| - 1;
    var last := parts[n];
    assert "" + last == last;
    if n == 0 {
      PartIsScanned(START, last);
      OneJoined(last);
      assert parts == [last] && parts[..0] == [];
    } else {
      ScanParts(parts[..n]);
      PartIsScanned(START, parts[n - 1]);
      BlankSplits(parts[..n][..n - 1], parts[n - 1], ' ');
      assert parts[..n] == parts[..n][..n - 1] + [parts[n - 1]];
      JoinedMore(parts);
      ScanTwice(START, Joined(parts[..n]), " ");
      ScanTwice(START, Joined(parts[..n]) + " ", last);
      PartIsScanned(Scan(parts[..n], "", false, false), last);
    }
  }

  lemma OneJoined(part: string)
    ensures Joined([part]) == part && Joined([]) == ""
  {
  }

  /** Tokens joined with blanks are split into just those tokens. */
  lemma JoinedIsSplit(parts: seq<string>)
    requires parts != [] && forall i :: 0 <= i < |parts| ==> IsOneToken(parts[i])
    ensures Tokens(Joined(parts)) == Some(parts)
  {
    hide ScanFrom, Joined, IsOneToken, Tokens;
    var n := |parts| - 1;
    ScanParts(parts);
    PartIsScanned(START, parts[n]);
    TokensAre(Joined(parts), parts[..n], parts[n]);
    assert parts[..n] + [parts[n]] == parts;
  }

  lemma TokensAre(search: string, before: seq<string>, last: string)
    requires ScanFrom(START, search) == Scan(before, last, false, false) && last != ""
    ensures Tokens(search) == Some(before + [last])
  {
  }

  /** Space, tab, carriage return and line feed all separate. */
  lemma BlankSeparates(a: string, b: string, blank: char)
    requires IsOneToken(a) && IsOneToken(b) && (blank == ' ' || blank == '\t' || blank == '\r' || blank == '\n')
    ensures Tokens(a + [blank] + b) == Some([a, b])
  {
    hide ScanFrom, IsOneToken, Tokens;
    PartIsScanned(START, a);
    PartIsScanned(Scan([a], "", false, false), b);
    BlankSplits([], a, blank);
    ScanTwice(START, a, [blank]);
    ScanTwice(START, a + [blank], b);
    assert "" + a == a && "" + b == b && [] + [a] == [a] && [a] + [b] == [a, b];
    TokensAre(a + [blank] + b, [a], b);
  }

  /** A search as it is typed: words of free text and filters, in any order. */
  datatype Piece = Word(text: string) | Filtering(term: Term)

  function PieceText(p: Piece): string {
    match p case Word(text) => text case Filtering(term) => Serialize(term)
  }

  /** A word without blanks, quotes and colons; a filter the language can express. */
  predicate PieceOk(p: Piece, fields: seq<string>) {
    match p
    case Word(text) => text != "" && IsSolid(text) && ':' !in text
    case Filtering(term) => WellFormed(term, fields)
  }

  function PieceTexts(pieces: seq<Piece>): (texts: seq<string>)
    ensures |texts| == |pieces| && forall i :: 0 <= i < |pieces| ==> texts[i] == PieceText(pieces[i])
  {
    seq(|pieces|, i requires 0 <= i < |pieces| => PieceText(pieces[i]))
  }

  function TermsAmong(pieces: seq<Piece>): seq<Term> {
    if pieces == [] then []
    else
      var last := pieces[|pieces| - 1];
      TermsAmong(pieces[..|pieces| - 1]) + if last.Filtering? then [last.term] else []
  }

  function WordsAmong(pieces: seq<Piece>): seq<string> {
    if pieces == [] then []
    else
      var last := pieces[|pieces| - 1];
      WordsAmong(pieces[..|pieces| - 1]) + if last.Word? then [last.text] else []
  }

  /** The words that are searched for: all but AND. */
  function SearchedWords(pieces: seq<Piece>): seq<string> {
    if pieces == [] then []
    else
      var last := pieces[|pieces| - 1];
      SearchedWords(pieces[..|pieces| - 1]) + if last.Word? && last.text != "AND" then [last.text] else []
  }

  lemma {:induction false} AndIsDropped(pieces: seq<Piece>)
    ensures WithoutAnd(WordsAmong(pieces)) == SearchedWords(pieces)
  {
    if pieces != [] {
      var n := |pieces| - 1;
      AndIsDropped(pieces[..n]);
      var words := WordsAmong(pieces[..n]);
      assert words + [] == words && SearchedWords(pieces[..n]) + [] == SearchedWords(pieces[..n]);
      if pieces[n].Word? { assert (words + [pieces[n].text])[..|words|] == words; }
    }
  }

  lemma PieceIsOneToken(p: Piece, fields: seq<string>)
    requires AreNames(fields) && PieceOk(p, fields)
    ensures IsOneToken(PieceText(p))
  {
    hide ScanFrom, Serialize, WellFormed, AreNames;
    forall s: Scan | !s.quoted && !s.escaped
      ensures ScanFrom(s, PieceText(p)) == s.(current := s.current + PieceText(p))
    {
      match p
      case Word(text) => ScanSolid(s, text);
      case Filtering(term) => ScanSerialized(s, term, fields);
    }
    if p.Filtering? { TermReads(p.term, fields); }
  }

  lemma PieceReads(p: Piece, fields: seq<string>)
    requires AreNames(fields) && PieceOk(p, fields)
    ensures ReadToken(PieceText(p), fields) == match p case Word(_) => PlainText case Filtering(term) => IsTerm(term)
  {
    match p
    case Word(text) => assert IndexOf(text, ':').None?;
    case Filtering(term) => TermReads(term, fields);
  }

  lemma {:induction false} PiecesCollected(pieces: seq<Piece>, fields: seq<string>)
    requires AreNames(fields) && forall i :: 0 <= i < |pieces| ==> PieceOk(pieces[i], fields)
    ensures Collected(PieceTexts(pieces), fields) == Some((WordsAmong(pieces), TermsAmong(pieces)))
  {
    hide ReadToken, Serialize, PieceOk, AreNames;
    if pieces == [] {
      assert PieceTexts(pieces) == [];
    } else {
      var n := |pieces| - 1;
      PiecesCollected(pieces[..n], fields);
      PieceReads(pieces[n], fields);
      assert PieceTexts(pieces)[..n] == PieceTexts(pieces[..n]);
      var words, terms := WordsAmong(pieces[..n]), TermsAmong(pieces[..n]);
      assert words + [] == words && terms + [] == terms;
      assert PieceTexts(pieces)[n] == PieceText(pieces[n]) && |PieceTexts(pieces)| == |pieces|;
    }
  }

  /** Words and filters in any order: the filters in order, and the words other than AND joined by blanks. */
  lemma MixedSearchReads(pieces: seq<Piece>, fields: seq<string>)
    requires AreNames(fields) && forall i :: 0 <= i < |pieces| ==> PieceOk(pieces[i], fields)
    requires TermsAmong(pieces) != []
    ensures Parsed(Joined(PieceTexts(pieces)), fields) == (Joined(SearchedWords(pieces)), TermsAmong(pieces))
  {
    hide PieceOk, AreNames, IsOneToken, Tokens, Collected, Joined, PieceText, SearchedWords;
    assert pieces != [];
    forall i | 0 <= i < |pieces| ensures IsOneToken(PieceTexts(pieces)[i]) { PieceIsOneToken(pieces[i], fields); }
    JoinedIsSplit(PieceTexts(pieces));
    PiecesCollected(pieces, fields);
    AndIsDropped(pieces);
  }

  /** Only filters. */
  function Filterings(terms: seq<Term>): (pieces: seq<Piece>)
    ensures |pieces| == |terms| && forall i :: 0 <= i < |terms| ==> pieces[i] == Filtering(terms[i])
  {
    seq(|terms|, i requires 0 <= i < |terms| => Filtering(terms[i]))
  }

  lemma {:induction false} FilteringsAre(terms: seq<Term>)
    ensures TermsAmong(Filterings(terms)) == terms && SearchedWords(Filterings(terms)) == []
    ensures PieceTexts(Filterings(terms)) == SerializedAll(terms)
  {
    hide Serialize;
    if terms != [] {
      var n := |terms| - 1;
      FilteringsAre(terms[..n]);
      assert Filterings(terms)[..n] == Filterings(terms[..n]);
      assert terms == terms[..n] + [terms[n]];
      assert PieceTexts(Filterings(terms)) == PieceTexts(Filterings(terms[..n])) + [Serialize(terms[n])];
    }
  }

  /** Serialized, joined with blanks and parsed: exactly the terms, in order, and no free text. */
  lemma ParseInvertsSerialize(terms: seq<Term>, fields: seq<string>)
    requires AllWellFormed(terms, fields) && terms != []
    ensures Parsed(Joined(SerializedAll(terms)), fields) == ("", terms)
  {
    FilteringsAre(terms);
    hide Parsed, Joined, SerializedAll, TermsAmong, SearchedWords, WellFormed, AreNames;
    MixedSearchReads(Filterings(terms), fields);
    OneJoined("");
  }

  lemma LogFieldsAreNames()
    ensures AreNames(LOG_FIELDS)
  {
  }
}
