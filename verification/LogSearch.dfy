// Log filters twice: compiled to a three-valued SQL predicate on the server, matched directly in the browser.
module LogSearch {
  import opened JsonPointer
  import opened JsonString
  import opened Order
  import opened Patterns
  import opened SearchSyntax

  // ---- Numbers in searches ----

  predicate IsDigit(c: char) { '0' <= c <= '9' }

  function Digits(s: string): (n: nat)
    ensures n <= |s|
  {
    if s == "" || !IsDigit(s[0]) then 0 else 1 + Digits(s[1..])
  }

  /** `(?:[eE][+-]?\d+)?` up to the end. */
  predicate IsExponent(s: string) {
    s == "" || (
      && (s[0] == 'e' || s[0] == 'E')
      && var rest := if |s| >= 2 && (s[1] == '+' || s[1] == '-') then s[2..] else s[1..];
         rest != "" && Digits(rest) == |rest|)
  }

  /** `^-?(?:\d+\.?\d*|\.\d+)(?:[eE][+-]?\d+)?$`. */
  predicate IsNumeral(s: string) {
    var t := if HasPrefix(s, "-") then s[1..] else s;
    var n := Digits(t);
    var fraction := t[n..];
    if fraction != "" && fraction[0] == '.' then
      var m := Digits(fraction[1..]);
      n + m > 0 && IsExponent(fraction[1..][m..])
    else n > 0 && IsExponent(fraction)
  }

  /** The value of a numeral, or `None` when it is beyond the finite doubles. */
  type ParseNumber = string -> Option<real>

  function NumberOf(s: string, parse: ParseNumber): Option<real> {
    if IsNumeral(s) then parse(s) else None
  }

  datatype Operator = AtLeast | AtMost | Greater | Less

  function Symbol(op: Operator): string {
    match op
    case AtLeast => ">="
    case AtMost => "<="
    case Greater => ">"
    case Less => "<"
  }

  predicate Compares(x: real, op: Operator, y: real) {
    match op
    case AtLeast => x >= y
    case AtMost => x <= y
    case Greater => x > y
    case Less => x < y
  }

  function TryOperator(value: string, op: Operator): Option<(Operator, string)> {
    var n := |Symbol(op)|;
    if HasPrefix(value, Symbol(op)) && IsNumeral(value[n..]) then Some((op, value[n..])) else None
  }

  /** The server's one expression: each operator in turn, with a numeral after it. */
  function ServerComparison(value: string, parse: ParseNumber): Option<(Operator, real)> {
    var a, b := TryOperator(value, AtLeast), TryOperator(value, AtMost);
    var c, d := TryOperator(value, Greater), TryOperator(value, Less);
    var found := if a.Some? then a else if b.Some? then b else if c.Some? then c else d;
    if found.None? then None
    else
      var number := parse(found.value.1);
      if number.None? then None else Some((found.value.0, number.value))
  }

  /** The browser's two steps: the longest operator leaving something, and only then whether
      that is a finite numeral. */
  function BrowserComparison(term: Term, parse: ParseNumber): Option<(Operator, real)> {
    var v := term.value;
    if term.quoted then None
    else
      var op := if HasPrefix(v, ">=") && |v| > 2 then Some(AtLeast)
        else if HasPrefix(v, "<=") && |v| > 2 then Some(AtMost)
        else if HasPrefix(v, ">") && |v| > 1 then Some(Greater)
        else if HasPrefix(v, "<") && |v| > 1 then Some(Less)
        else None;
      if op.None? then None
      else
        var number := NumberOf(v[|Symbol(op.value)|..], parse);
        if number.None? then None else Some((op.value, number.value))
  }

  lemma NumeralStart(s: string)
    requires IsNumeral(s)
    ensures s != "" && s[0] != '='
  {
  }

  lemma ComparisonsAgree(term: Term, parse: ParseNumber)
    requires !term.quoted
    ensures ServerComparison(term.value, parse) == BrowserComparison(term, parse)
  {
    var v := term.value;
    if v != "" {
      if IsNumeral(v[1..]) { NumeralStart(v[1..]); }
      if |v| >= 2 && IsNumeral(v[2..]) { NumeralStart(v[2..]); }
      hide IsNumeral;
      assert HasPrefix(v, ">=") <==> |v| >= 2 && v[0] == '>' && v[1] == '=';
      assert HasPrefix(v, "<=") <==> |v| >= 2 && v[0] == '<' && v[1] == '=';
      assert HasPrefix(v, ">") <==> v[0] == '>';
      assert HasPrefix(v, "<") <==> v[0] == '<';
      assert |v| >= 2 ==> v[1..][0] == v[1];
    }
  }

  // ---- Rows ----

  /** A trace or span id as received: 16 or 8 bytes. */
  type Byte = x: int | 0 <= x < 256

  function HexText(id: seq<Byte>): string {
    if id == [] then "" else [HexDigit(id[0] / 16), HexDigit(id[0] % 16)] + HexText(id[1..])
  }

  /** The text an id is converted to: nothing for the zero id, otherwise two digits a byte. */
  function IdText(id: seq<Byte>): string {
    if forall i :: 0 <= i < |id| ==> id[i] == 0 then "" else HexText(id)
  }

  /** A JSON column as one text: what the database holds, and what the browser writes of the value it was sent. */
  datatype JsonText = JsonText(server: string, browser: string)

  /** A log record joined with its resource; `None` is SQL NULL, null in the browser. */
  datatype LogRow = LogRow(
    traceId: seq<Byte>, spanId: seq<Byte>, serviceName: Option<string>, severityText: Option<string>,
    severityNumber: Option<real>, severityNumberText: string, body: Option<string>,
    attributes: map<string, Json>, resource: map<string, Json>,
    attributesText: JsonText, resourceText: JsonText)

  datatype Cell = Null | Text(text: string) | Number(number: real, numberText: string)

  function TextCell(t: Option<string>): Cell { if t.None? then Null else Text(t.value) }

  /** The column of a built-in field; NULL for a name that is none. */
  function Column(row: LogRow, field: string): Cell {
    if field == "trace_id" then Text(IdText(row.traceId))
    else if field == "span_id" then Text(IdText(row.spanId))
    else if field == "service_name" then TextCell(row.serviceName)
    else if field == "severity_text" then TextCell(row.severityText)
    else if field == "body" then TextCell(row.body)
    else if field == "severity_number" && row.severityNumber.Some? then
      Number(row.severityNumber.value, row.severityNumberText)
    else Null
  }

  predicate IsId(field: string) { field == "trace_id" || field == "span_id" }

  function Zeros(n: nat): string { seq(n, i => '0') }

  function IdWidth(field: string): nat { if field == "span_id" then 16 else 32 }

  predicate IsZeros(s: string) { s != "" && forall i :: 0 <= i < |s| ==> s[i] == '0' }

  // ---- SQL ----

  datatype Truth = Yes | No | Unknown

  function AsTruth(b: bool): Truth { if b then Yes else No }

  function And(a: Truth, b: Truth): Truth {
    if a == No || b == No then No else if a == Yes && b == Yes then Yes else Unknown
  }

  function Or(a: Truth, b: Truth): Truth {
    if a == Yes || b == Yes then Yes else if a == No && b == No then No else Unknown
  }

  datatype Clause =
    | JsonPresent(resource: bool, path: string)
    | JsonCompares(resource: bool, path: string, op: Operator, bound: real)
    | JsonLike(resource: bool, path: string, pattern: string)
    | ColumnPresent(field: string)
    | ColumnCompares(field: string, op: Operator, bound: real)
    | ColumnEquals(field: string, bound: real)
    | ColumnLike(field: string, pattern: string)
    | Never
    | NotCoalesced(clause: Clause)

  /** What a compiled search asks of a row: the free-text pattern in some text column, and every clause. */
  datatype Predicate = Predicate(pattern: string, clauses: seq<Clause>)

  function Document(row: LogRow, resource: bool): Json { JObject(if resource then row.resource else row.attributes) }

  /** json_type(column, path) IN (the numeric types); NULL for a missing value. */
  function IsNumericType(json: Option<Json>): Truth {
    if json.None? then Unknown else AsTruth(json.value.JNumber?)
  }

  function IsScalarType(json: Option<Json>): Truth {
    if json.None? then Unknown else AsTruth(json.value.JNumber? || json.value.JString? || json.value.JBool?)
  }

  /** json_extract_string; the text of arrays and objects is never looked at. */
  function ExtractString(json: Option<Json>): Option<string> {
    if json.None? then None
    else
      match json.value
      case JString(text) => Some(text)
      case JNumber(_, text, _) => Some(text)
      case JBool(b) => Some(if b then "true" else "false")
      case _ => None
  }

  function LikeTruth(text: Option<string>, pattern: string, fold: Fold): Truth {
    if text.None? then Unknown else AsTruth(Like(pattern, text.value, fold))
  }

  /** The column expression: ids lose their two empty forms. */
  function NonEmptyColumn(row: LogRow, field: string): Cell {
    var cell := Column(row, field);
    if IsId(field) && cell.Text? && (cell.text == "" || cell.text == Zeros(IdWidth(field))) then Null else cell
  }

  function CellText(cell: Cell): Option<string> {
    match cell
    case Null => None
    case Text(text) => Some(text)
    case Number(_, text) => Some(text)
  }

  function Eval(clause: Clause, row: LogRow, fold: Fold): Truth {
    match clause
    case JsonPresent(resource, path) =>
      var json := Resolve(path, Document(row, resource));
      And(AsTruth(json.Some?), if json.None? then Unknown else AsTruth(!json.value.JNull?))
    case JsonCompares(resource, path, op, bound) =>
      var json := Resolve(path, Document(row, resource));
      And(IsNumericType(json),
          if json.Some? && json.value.JNumber? then AsTruth(Compares(json.value.number, op, bound)) else Unknown)
    case JsonLike(resource, path, pattern) =>
      var json := Resolve(path, Document(row, resource));
      And(IsScalarType(json), LikeTruth(ExtractString(json), pattern, fold))
    case ColumnPresent(field) => AsTruth(!NonEmptyColumn(row, field).Null?)
    case ColumnCompares(field, op, bound) =>
      var cell := NonEmptyColumn(row, field);
      if cell.Number? then AsTruth(Compares(cell.number, op, bound)) else Unknown
    case ColumnEquals(field, bound) =>
      var cell := NonEmptyColumn(row, field);
      if cell.Number? then AsTruth(cell.number == bound) else Unknown
    case ColumnLike(field, pattern) => LikeTruth(CellText(NonEmptyColumn(row, field)), pattern, fold)
    case Never => No
    case NotCoalesced(inner) => AsTruth(Eval(inner, row, fold) != Yes)
  }

  /** The texts free text is looked for in, with the two JSON columns as one side has them. */
  function Texts(row: LogRow, attributes: string, resource: string): seq<Option<string>> {
    [row.body, row.serviceName, row.severityText, Some(IdText(row.traceId)), Some(attributes), Some(resource)]
  }

  function ServerTexts(row: LogRow): seq<Option<string>> {
    Texts(row, row.attributesText.server, row.resourceText.server)
  }

  function BrowserTexts(row: LogRow): seq<Option<string>> {
    Texts(row, row.attributesText.browser, row.resourceText.browser)
  }

  function AnyLike(texts: seq<Option<string>>, pattern: string, fold: Fold): Truth {
    if texts == [] then No else Or(LikeTruth(texts[0], pattern, fold), AnyLike(texts[1..], pattern, fold))
  }

  function AllClauses(clauses: seq<Clause>, row: LogRow, fold: Fold): Truth {
    if clauses == [] then Yes
    else And(AllClauses(clauses[..|clauses| - 1], row, fold), Eval(clauses[|clauses| - 1], row, fold))
  }

  /** A WHERE clause keeps a row only when it is true of it. */
  predicate Selects(p: Predicate, row: LogRow, fold: Fold) {
    And(AnyLike(ServerTexts(row), p.pattern, fold), AllClauses(p.clauses, row, fold)) == Yes
  }

  // ---- Compiling ----

  function ValuePattern(term: Term): string {
    var escaped := EscapeLike(term.value);
    if term.quoted then escaped else StarsToPercent(escaped)
  }

  function AttributeClause(term: Term, parse: ParseNumber): Clause {
    if term.field.Some? then FieldClause(term, parse)
    else
      var path := Pointer(term.key);
      if !term.quoted && term.value == "*" then JsonPresent(term.resource, path)
      else
        var comparison := if term.quoted then None else ServerComparison(term.value, parse);
        if comparison.Some? then JsonCompares(term.resource, path, comparison.value.0, comparison.value.1)
        else JsonLike(term.resource, path, ValuePattern(term))
  }

  predicate IsNumericField(field: string) { field == "severity_number" }

  function FieldClause(term: Term, parse: ParseNumber): Clause
    requires term.field.Some?
  {
    var field := term.field.value;
    if !term.quoted && term.value == "*" then ColumnPresent(field)
    else
      var comparison := if term.quoted then None else ServerComparison(term.value, parse);
      if comparison.Some? then
        if IsNumericField(field) then ColumnCompares(field, comparison.value.0, comparison.value.1) else Never
      else
        var number := NumberOf(term.value, parse);
        if IsNumericField(field) && number.Some? then ColumnEquals(field, number.value)
        else ColumnLike(field, ValuePattern(term))
  }

  function TermClause(term: Term, parse: ParseNumber): Clause {
    if term.negated then NotCoalesced(AttributeClause(term, parse)) else AttributeClause(term, parse)
  }

  function Clauses(terms: seq<Term>, parse: ParseNumber): seq<Clause> {
    if terms == [] then []
    else Clauses(terms[..|terms| - 1], parse) + [TermClause(terms[|terms| - 1], parse)]
  }

  function Compiled(search: string, parse: ParseNumber): Predicate {
    var (plain, terms) := Parsed(search, LOG_FIELDS);
    Predicate(ContainsPattern(plain), Clauses(terms, parse))
  }

  method LogSearchSQL(search: string, parse: ParseNumber) returns (p: Predicate)
    ensures p == Compiled(search, parse)
  {
    hide Parsed, TermClause;
    var plain, terms := ParseSignalSearch(search, LOG_FIELDS);
    var clauses: seq<Clause> := [];
    for i := 0 to |terms|
      invariant clauses == Clauses(terms[..i], parse)
    {
      assert terms[..i + 1][..i] == terms[..i];
      var clause := AttributeClause(terms[i], parse);
      if terms[i].negated { clause := NotCoalesced(clause); }
      assert clause == TermClause(terms[i], parse) by { ClauseOfTerm(terms[i], parse); }
      clauses := clauses + [clause];
    }
    assert terms[..|terms|] == terms;
    p := Predicate(ContainsPattern(plain), clauses);
  }

  lemma ClauseOfTerm(term: Term, parse: ParseNumber)
    ensures TermClause(term, parse)
      == if term.negated then NotCoalesced(AttributeClause(term, parse)) else AttributeClause(term, parse)
  {
  }

  // ---- The browser ----

  /** What the matcher is given: `None` for undefined. */
  function BrowserValue(row: LogRow, term: Term): Option<Json> {
    if term.field.Some? then
      var cell := Column(row, term.field.value);
      match cell
      case Null => None
      case Text(text) => if IsId(term.field.value) && (text == "" || IsZeros(text)) then None else Some(JString(text))
      case Number(n, text) => Some(JNumber(n, text, text))
    else Member(Document(row, term.resource), term.key)
  }

  /** String(value) of a scalar. */
  function BrowserText(json: Json): Option<string> {
    match json
    case JString(text) => Some(text)
    case JNumber(_, _, text) => Some(text)
    case JBool(b) => Some(if b then "true" else "false")
    case _ => None
  }

  function Parts(term: Term): (parts: seq<string>)
    ensures parts != []
  {
    if term.quoted then [term.value] else Split(term.value)
  }

  predicate TermMatches(term: Term, value: Option<Json>, parse: ParseNumber, fold: Fold) {
    if value.None? || value.value.JNull? then false
    else
      var comparison := BrowserComparison(term, parse);
      if comparison.Some? then
        value.value.JNumber? && Compares(value.value.number, comparison.value.0, comparison.value.1)
      else if !term.quoted && term.value == "*" then true
      else
        var number := NumberOf(term.value, parse);
        if term.field == Some("severity_number") && number.Some? then
          value.value.JNumber? && value.value.number == number.value
        else
          var text := BrowserText(value.value);
          text.Some? && PartsMatch(Parts(term), text.value, fold)
  }

  predicate BrowserTerm(term: Term, row: LogRow, parse: ParseNumber, fold: Fold) {
    TermMatches(term, BrowserValue(row, term), parse, fold) != term.negated
  }

  predicate PlainMatches(plain: string, row: LogRow, fold: Fold) {
    plain == "" || SomeHolds(BrowserTexts(row), plain, fold)
  }

  /** A null text is searched as the empty one. */
  function OrEmpty(text: Option<string>): string { if text.None? then "" else text.value }

  predicate TextHolds(text: Option<string>, plain: string, fold: Fold) { Contains(OrEmpty(text), plain, fold) }

  predicate SomeHolds(texts: seq<Option<string>>, plain: string, fold: Fold) {
    exists i :: 0 <= i < |texts| && TextHolds(texts[i], plain, fold)
  }

  predicate BrowserMatches(search: string, row: LogRow, parse: ParseNumber, fold: Fold) {
    var (plain, terms) := Parsed(search, LOG_FIELDS);
    PlainMatches(plain, row, fold) && forall i :: 0 <= i < |terms| ==> BrowserTerm(terms[i], row, parse, fold)
  }

  // ---- They agree ----

  /** Database and browser write a number with the same characters, up to case. */
  predicate IsWrittenAlike(json: Json, fold: Fold) {
    json.JNumber? ==> SameText(json.sqlText, json.browserText, fold)
  }

  /** Every number of the record is written alike on both sides. */
  ghost predicate IsOrdinary(row: LogRow, fold: Fold) {
    && (forall k :: k in row.attributes ==> IsWrittenAlike(row.attributes[k], fold))
    && (forall k :: k in row.resource ==> IsWrittenAlike(row.resource[k], fold))
  }

  /** Each of these texts occurs whole in one of those. */
  predicate Covers(those: seq<Option<string>>, these: seq<Option<string>>, fold: Fold) {
    forall i :: 0 <= i < |these| ==> SomeHolds(those, OrEmpty(these[i]), fold)
  }

  /** Neither side has a text, of a JSON column or another, that the other side does not have somewhere. */
  predicate HaveSameTexts(row: LogRow, fold: Fold) {
    Covers(ServerTexts(row), BrowserTexts(row), fold) && Covers(BrowserTexts(row), ServerTexts(row), fold)
  }

  lemma {:induction false} LikeRespects(pattern: string, a: string, b: string, fold: Fold)
    requires SameText(a, b, fold)
    ensures Like(pattern, a, fold) <==> Like(pattern, b, fold)
    decreases |pattern|, |a|
  {
    if pattern != "" {
      var skip := if pattern[0] == '\\' && |pattern| >= 2 then 2 else 1;
      if a != "" { LikeRespects(pattern[skip..], a[1..], b[1..], fold); }
      if pattern[0] == '%' {
        LikeRespects(pattern[1..], a, b, fold);
        if a != "" { LikeRespects(pattern, a[1..], b[1..], fold); }
      }
    }
  }

  /** The compiled pattern finds what the browser's parts find. */
  lemma PatternFinds(term: Term, text: string, fold: Fold)
    ensures Like(ValuePattern(term), text, fold) <==> PartsMatch(Parts(term), text, fold)
  {
    if term.quoted { EscapedIsLiteral(term.value, text, fold); } else { GlobMatchesParts(term.value, text, fold); }
  }

  lemma TextAgrees(term: Term, a: string, b: string, fold: Fold)
    requires SameText(a, b, fold)
    ensures Like(ValuePattern(term), a, fold) <==> PartsMatch(Parts(term), b, fold)
  {
    LikeRespects(ValuePattern(term), a, b, fold);
    PatternFinds(term, b, fold);
  }

  /** The textual test of an attribute: the type guard lets through exactly what the browser turns into a string. */
  lemma ScalarTextAgrees(term: Term, json: Option<Json>, fold: Fold)
    requires json.Some? ==> IsWrittenAlike(json.value, fold)
    ensures And(IsScalarType(json), LikeTruth(ExtractString(json), ValuePattern(term), fold)) == Yes
      <==> json.Some? && BrowserText(json.value).Some? && PartsMatch(Parts(term), BrowserText(json.value).value, fold)
  {
    hide Like, PartsMatch, ValuePattern, Parts;
    if json.Some? && ExtractString(json).Some? {
      TextAgrees(term, ExtractString(json).value, BrowserText(json.value).value, fold);
    }
  }

  /** What the browser's matcher does with a value once every choice on the term is made. */
  lemma MatcherChoice(term: Term, value: Option<Json>, parse: ParseNumber, fold: Fold)
    ensures var comparison := BrowserComparison(term, parse);
      TermMatches(term, value, parse, fold) <==> (
        if !term.quoted && term.value == "*" then value.Some? && !value.value.JNull?
        else if comparison.Some? then
          value.Some? && value.value.JNumber? && Compares(value.value.number, comparison.value.0, comparison.value.1)
        else if term.field == Some("severity_number") && NumberOf(term.value, parse).Some? then
          value.Some? && value.value.JNumber? && value.value.number == NumberOf(term.value, parse).value
        else
          && value.Some? && BrowserText(value.value).Some?
          && PartsMatch(Parts(term), BrowserText(value.value).value, fold))
  {
    StarNeverCompares(term, parse);
    hide BrowserComparison, Compares, PartsMatch, Parts, NumberOf;
  }

  lemma AttributeAgrees(term: Term, row: LogRow, parse: ParseNumber, fold: Fold)
    requires term.field.None?
    requires var json := BrowserValue(row, term); json.Some? ==> IsWrittenAlike(json.value, fold)
    ensures Eval(AttributeClause(term, parse), row, fold) == Yes
      <==> TermMatches(term, BrowserValue(row, term), parse, fold)
  {
    PointerNamesKey(term.key, Document(row, term.resource));
    if !term.quoted { ComparisonsAgree(term, parse); }
    var json := BrowserValue(row, term);
    MatcherChoice(term, json, parse, fold);
    QuotedNeverCompares(term, parse);
    ScalarTextAgrees(term, json, fold);
    hide Resolve, Pointer, Document, Member, ServerComparison, BrowserComparison, Compares, LikeTruth, PartsMatch,
      ValuePattern, Parts,
      NumberOf, TermMatches, IsWrittenAlike, BrowserText, ExtractString, IsScalarType;
  }

  lemma QuotedNeverCompares(term: Term, parse: ParseNumber)
    ensures term.quoted ==> BrowserComparison(term, parse).None?
  {
  }

  lemma StarNeverCompares(term: Term, parse: ParseNumber)
    ensures term.value == "*" ==> BrowserComparison(term, parse).None?
  {
  }

  lemma {:induction false} HexHasDigits(id: seq<Byte>)
    ensures |HexText(id)| == 2 * |id|
    ensures IsZeros(HexText(id)) ==> forall i :: 0 <= i < |id| ==> id[i] == 0
  {
    if id != [] {
      HexHasDigits(id[1..]);
      var text := HexText(id);
      assert text[2..] == HexText(id[1..]);
      if IsZeros(text) {
        assert text[0] == '0' && text[1] == '0';
        HexReads(id[0] / 16);
        HexReads(id[0] % 16);
        assert id[0] == 0;
        if id[1..] != [] {
          assert forall i :: 0 <= i < |text[2..]| ==> text[2..][i] == text[i + 2];
          assert IsZeros(HexText(id[1..]));
        }
        assert forall i :: 0 < i < |id| ==> id[i] == id[1..][i - 1];
      }
    }
  }

  /** A converted id is empty or has all its digits and is no row of zeros, so neither side ever drops a real one. */
  lemma IdTextIsOrdinary(id: seq<Byte>)
    ensures IdText(id) == "" || (|IdText(id)| == 2 * |id| && !IsZeros(IdText(id)))
    ensures IdText(id) == "" <==> forall i :: 0 <= i < |id| ==> id[i] == 0
  {
    HexHasDigits(id);
  }

  /** The two readings of an empty id. */
  ghost predicate SameCell(cell: Cell, json: Option<Json>) {
    match cell
    case Null => json.None?
    case Text(text) => json == Some(JString(text))
    case Number(n, text) => json == Some(JNumber(n, text, text))
  }

  lemma CellsAgree(term: Term, row: LogRow)
    requires term.field.Some?
    ensures SameCell(NonEmptyColumn(row, term.field.value), BrowserValue(row, term))
  {
    IdTextIsOrdinary(row.traceId);
    IdTextIsOrdinary(row.spanId);
    var width := IdWidth(term.field.value);
    assert IsZeros(Zeros(width));
    hide IdText, IsZeros, Zeros;
  }

  lemma FieldTypes(row: LogRow, field: string)
    ensures var cell := NonEmptyColumn(row, field); cell.Number? ==> IsNumericField(field)
    ensures var cell := NonEmptyColumn(row, field); cell.Text? ==> !IsNumericField(field)
  {
  }

  /** What each column clause makes of its cell. */
  lemma ColumnTruths(row: LogRow, field: string, op: Operator, bound: real, pattern: string, fold: Fold)
    ensures var cell := NonEmptyColumn(row, field);
      && (Eval(ColumnPresent(field), row, fold) == Yes <==> !cell.Null?)
      && (Eval(ColumnCompares(field, op, bound), row, fold) == Yes
          <==> cell.Number? && Compares(cell.number, op, bound))
      && (Eval(ColumnEquals(field, bound), row, fold) == Yes <==> cell.Number? && cell.number == bound)
      && (Eval(ColumnLike(field, pattern), row, fold) == LikeTruth(CellText(cell), pattern, fold))
      && Eval(Never, row, fold) != Yes
  {
    hide NonEmptyColumn, Compares, LikeTruth, CellText;
  }

  /** A field's clause, with the browser's reading of the term in place of the server's. */
  lemma ClauseChoice(term: Term, parse: ParseNumber)
    requires term.field.Some?
    ensures var comparison := BrowserComparison(term, parse);
      AttributeClause(term, parse) ==
        if !term.quoted && term.value == "*" then ColumnPresent(term.field.value)
        else if comparison.Some? then
          if !IsNumericField(term.field.value) then Never
          else ColumnCompares(term.field.value, comparison.value.0, comparison.value.1)
        else if IsNumericField(term.field.value) && NumberOf(term.value, parse).Some? then
          ColumnEquals(term.field.value, NumberOf(term.value, parse).value)
        else ColumnLike(term.field.value, ValuePattern(term))
  {
    if !term.quoted { ComparisonsAgree(term, parse); }
    QuotedNeverCompares(term, parse);
    hide ServerComparison, BrowserComparison, ValuePattern, NumberOf;
  }

  /** A column test: presence, comparison, equality or text, as the term chooses. */
  lemma CellChoice(term: Term, row: LogRow, parse: ParseNumber, fold: Fold)
    requires term.field.Some?
    ensures var cell, comparison := NonEmptyColumn(row, term.field.value), BrowserComparison(term, parse);
      Eval(AttributeClause(term, parse), row, fold) == Yes <==> (
        if !term.quoted && term.value == "*" then !cell.Null?
        else if comparison.Some? then cell.Number? && Compares(cell.number, comparison.value.0, comparison.value.1)
        else if IsNumericField(term.field.value) && NumberOf(term.value, parse).Some? then
          cell.Number? && cell.number == NumberOf(term.value, parse).value
        else !cell.Null? && PartsMatch(Parts(term), CellText(cell).value, fold))
  {
    var field, comparison, number := term.field.value, BrowserComparison(term, parse), NumberOf(term.value, parse);
    ClauseChoice(term, parse);
    FieldTypes(row, field);
    ColumnTextAgrees(term, row, field, fold);
    var op := if comparison.Some? then comparison.value.0 else Less;
    var bound := if comparison.Some? then comparison.value.1 else if number.Some? then number.value else 0.0;
    ColumnTruths(row, field, op, bound, ValuePattern(term), fold);
    hide NonEmptyColumn, BrowserComparison, Compares, LikeTruth, PartsMatch, ValuePattern, Parts, NumberOf, CellText,
      Eval,
      AttributeClause, IsNumericField;
  }

  lemma ColumnTextAgrees(term: Term, row: LogRow, field: string, fold: Fold)
    ensures var cell := NonEmptyColumn(row, field);
      LikeTruth(CellText(cell), ValuePattern(term), fold) == Yes
      <==> !cell.Null? && PartsMatch(Parts(term), CellText(cell).value, fold)
  {
    var cell := NonEmptyColumn(row, field);
    hide NonEmptyColumn, Like, PartsMatch, ValuePattern, Parts;
    if !cell.Null? { PatternFinds(term, CellText(cell).value, fold); }
  }

  lemma FieldAgrees(term: Term, row: LogRow, parse: ParseNumber, fold: Fold)
    requires term.field.Some? && SameCell(NonEmptyColumn(row, term.field.value), BrowserValue(row, term))
    ensures Eval(AttributeClause(term, parse), row, fold) == Yes
      <==> TermMatches(term, BrowserValue(row, term), parse, fold)
  {
    MatcherChoice(term, BrowserValue(row, term), parse, fold);
    CellChoice(term, row, parse, fold);
    hide NonEmptyColumn, BrowserValue, BrowserComparison, Compares, PartsMatch, Parts, NumberOf, TermMatches, Eval,
      AttributeClause;
  }

  /** One filter, negated or not: true in SQL's three-valued logic exactly when the browser's matcher accepts. */
  lemma TermAgrees(term: Term, row: LogRow, parse: ParseNumber, fold: Fold)
    requires IsOrdinary(row, fold)
    ensures Eval(TermClause(term, parse), row, fold) == Yes <==> BrowserTerm(term, row, parse, fold)
  {
    hide AttributeClause, TermMatches, BrowserValue, NonEmptyColumn;
    if term.field.Some? {
      CellsAgree(term, row);
      FieldAgrees(term, row, parse, fold);
    } else {
      MembersAreAlike(term, row, fold);
      AttributeAgrees(term, row, parse, fold);
    }
    ClauseOfTerm(term, parse);
  }

  lemma MembersAreAlike(term: Term, row: LogRow, fold: Fold)
    requires term.field.None? && IsOrdinary(row, fold)
    ensures var json := BrowserValue(row, term); json.Some? ==> IsWrittenAlike(json.value, fold)
  {
    hide IsWrittenAlike;
  }

  lemma ClausesLast(terms: seq<Term>, row: LogRow, parse: ParseNumber, fold: Fold)
    requires terms != []
    ensures var n := |terms| - 1;
      AllClauses(Clauses(terms, parse), row, fold)
      == And(AllClauses(Clauses(terms[..n], parse), row, fold), Eval(TermClause(terms[n], parse), row, fold))
  {
    hide Eval, TermClause;
    var before, last := Clauses(terms[..|terms| - 1], parse), TermClause(terms[|terms| - 1], parse);
    assert (before + [last])[..|before|] == before;
  }

  lemma {:induction false} AllAgree(terms: seq<Term>, row: LogRow, parse: ParseNumber, fold: Fold)
    requires IsOrdinary(row, fold)
    ensures AllClauses(Clauses(terms, parse), row, fold) == Yes
      <==> forall i :: 0 <= i < |terms| ==> BrowserTerm(terms[i], row, parse, fold)
  {
    hide Eval, TermClause, BrowserTerm, IsOrdinary;
    if terms != [] {
      var n := |terms| - 1;
      AllAgree(terms[..n], row, parse, fold);
      TermAgrees(terms[n], row, parse, fold);
      ClausesLast(terms, row, parse, fold);
      hide Clauses, AllClauses;
      assert forall i :: 0 <= i < n ==> terms[..n][i] == terms[i];
    }
  }

  lemma {:induction false} AnyAgrees(texts: seq<Option<string>>, plain: string, fold: Fold)
    requires plain != ""
    ensures AnyLike(texts, ContainsPattern(plain), fold) == Yes
      <==> exists i :: 0 <= i < |texts| && TextHolds(texts[i], plain, fold)
  {
    hide Like, ContainsPattern, Contains;
    if texts != [] {
      AnyAgrees(texts[1..], plain, fold);
      if texts[0].Some? { ContainsPatternFinds(plain, texts[0].value, fold); } else { NothingContains(plain, fold); }
      if i :| 0 <= i < |texts| && TextHolds(texts[i], plain, fold) {
        if i > 0 { assert texts[1..][i - 1] == texts[i]; }
      }
      if i :| 0 <= i < |texts[1..]| && TextHolds(texts[1..][i], plain, fold) {
        assert texts[i + 1] == texts[1..][i];
      }
    }
  }

  lemma NothingContains(plain: string, fold: Fold)
    requires plain != ""
    ensures !Contains("", plain, fold)
  {
  }

  lemma EmptyIsAnywhere(row: LogRow, fold: Fold)
    ensures AnyLike(ServerTexts(row), ContainsPattern(""), fold) == Yes
  {
    var pattern, texts, text := ContainsPattern(""), ServerTexts(row), row.attributesText.server;
    assert pattern[1..] == "%";
    PercentMatchesAll(text, fold);
    assert Like(pattern, text, fold);
    hide Like, IdText;
    assert texts[1..][1..][1..][1..][0] == Some(text);
    assert AnyLike(texts[1..][1..][1..][1..], pattern, fold) == Yes;
    assert AnyLike(texts[1..][1..], pattern, fold) == Yes;
  }

  /** The server's free-text test, read without patterns. */
  lemma ServerFreeText(plain: string, row: LogRow, fold: Fold)
    ensures AnyLike(ServerTexts(row), ContainsPattern(plain), fold) == Yes
      <==> plain == "" || SomeHolds(ServerTexts(row), plain, fold)
  {
    hide ServerTexts, ContainsPattern;
    if plain == "" { EmptyIsAnywhere(row, fold); } else { AnyAgrees(ServerTexts(row), plain, fold); }
  }

  lemma ContainsIsTransitive(text: string, middle: string, s: string, fold: Fold)
    requires Contains(text, middle, fold) && Contains(middle, s, fold)
    ensures Contains(text, s, fold)
  {
    var k :| 0 <= k <= |text| && StartsWith(text[k..], middle, fold);
    var m :| 0 <= m <= |middle| && StartsWith(middle[m..], s, fold);
    var rest := text[k + m..];
    forall i | 0 <= i < |s| ensures fold(s[i]) == fold(rest[i]) {
      assert fold(s[i]) == fold(middle[m..][..|s|][i]) && middle[m..][..|s|][i] == middle[m + i];
      assert fold(middle[m + i]) == fold(text[k..][..|middle|][m + i]) && text[k..][..|middle|][m + i] == rest[i];
    }
    assert StartsWith(rest, s, fold);
  }

  /** What is found in covered texts is found in the covering ones. */
  lemma CoveredIsFound(those: seq<Option<string>>, these: seq<Option<string>>, plain: string, fold: Fold)
    requires Covers(those, these, fold) && SomeHolds(these, plain, fold)
    ensures SomeHolds(those, plain, fold)
  {
    hide Contains;
    var i :| 0 <= i < |these| && TextHolds(these[i], plain, fold);
    var j :| 0 <= j < |those| && TextHolds(those[j], OrEmpty(these[i]), fold);
    ContainsIsTransitive(OrEmpty(those[j]), OrEmpty(these[i]), plain, fold);
    assert TextHolds(those[j], plain, fold);
  }

  lemma HoldsItself(texts: seq<Option<string>>, i: nat, fold: Fold)
    requires i < |texts|
    ensures SomeHolds(texts, OrEmpty(texts[i]), fold)
  {
    var text := OrEmpty(texts[i]);
    assert text[0..] == text && text[..|text|] == text && StartsWith(text[0..], text, fold);
    assert TextHolds(texts[i], text, fold);
  }

  /** Texts found alike by every free text cover each other: each text is itself something to look for. */
  lemma FoundAlikeCovers(those: seq<Option<string>>, these: seq<Option<string>>, fold: Fold)
    requires those != []
    requires forall plain {:trigger SomeHolds(these, plain, fold)} ::
      plain != "" && SomeHolds(these, plain, fold) ==> SomeHolds(those, plain, fold)
    ensures Covers(those, these, fold)
  {
    hide SomeHolds;
    forall i | 0 <= i < |these| ensures SomeHolds(those, OrEmpty(these[i]), fold) {
      HoldsItself(these, i, fold);
      if OrEmpty(these[i]) == "" { HoldsEmpty(those, fold); }
    }
  }

  lemma HoldsEmpty(texts: seq<Option<string>>, fold: Fold)
    requires texts != []
    ensures SomeHolds(texts, "", fold)
  {
    var text := OrEmpty(texts[0]);
    assert StartsWith(text[0..], "", fold);
    assert TextHolds(texts[0], "", fold);
  }

  /** Free text is found alike. */
  predicate FoundAlike(plain: string, row: LogRow, fold: Fold) {
    AnyLike(ServerTexts(row), ContainsPattern(plain), fold) == Yes <==> PlainMatches(plain, row, fold)
  }

  /**
   * Every free text selects a record on the server exactly when the browser shows it, if and only if neither side has a
   * text the other lacks. A JSON column the two write differently is the one way to have such a text.
   */
  lemma FreeTextAgreesIff(row: LogRow, fold: Fold)
    ensures HaveSameTexts(row, fold) <==> forall plain :: FoundAlike(plain, row, fold)
  {
    hide ContainsPattern, SomeHolds, AnyLike, ServerTexts, BrowserTexts, Covers;
    forall plain ensures FoundAlike(plain, row, fold)
      <==> plain == "" || (SomeHolds(ServerTexts(row), plain, fold) <==> SomeHolds(BrowserTexts(row), plain, fold))
    {
      ServerFreeText(plain, row, fold);
    }
    if HaveSameTexts(row, fold) {
      forall plain ensures FoundAlike(plain, row, fold) {
        PlainAgrees(plain, row, fold);
      }
    }
    if forall plain :: FoundAlike(plain, row, fold) {
      forall plain | plain != ""
        ensures SomeHolds(ServerTexts(row), plain, fold) <==> SomeHolds(BrowserTexts(row), plain, fold)
      {
        assert FoundAlike(plain, row, fold);
      }
      SixTexts(row);
      FoundAlikeCovers(ServerTexts(row), BrowserTexts(row), fold);
      FoundAlikeCovers(BrowserTexts(row), ServerTexts(row), fold);
    }
  }

  lemma SixTexts(row: LogRow)
    ensures |ServerTexts(row)| == |BrowserTexts(row)| == 6
  {
  }

  lemma PlainAgrees(plain: string, row: LogRow, fold: Fold)
    requires HaveSameTexts(row, fold)
    ensures FoundAlike(plain, row, fold)
  {
    hide ServerTexts, BrowserTexts, ContainsPattern, SomeHolds, Covers, AnyLike;
    ServerFreeText(plain, row, fold);
    if SomeHolds(ServerTexts(row), plain, fold) { CoveredIsFound(BrowserTexts(row), ServerTexts(row), plain, fold); }
    if SomeHolds(BrowserTexts(row), plain, fold) { CoveredIsFound(ServerTexts(row), BrowserTexts(row), plain, fold); }
  }

  /** Whatever is typed, the server's query selects exactly the log records the browser shows live. */
  lemma SearchesAgree(search: string, row: LogRow, parse: ParseNumber, fold: Fold)
    requires IsOrdinary(row, fold) && HaveSameTexts(row, fold)
    ensures Selects(Compiled(search, parse), row, fold) <==> BrowserMatches(search, row, parse, fold)
  {
    var (plain, terms) := Parsed(search, LOG_FIELDS);
    hide Parsed, ServerTexts, ContainsPattern, IsOrdinary, HaveSameTexts, PlainMatches, BrowserTerm, AllClauses,
      AnyLike;
    PlainAgrees(plain, row, fold);
    AllAgree(terms, row, parse, fold);
  }

  // ---- What a search selects ----

  /** `key:>=n` and its kin, on an attribute or resource attribute. */
  function Compared(key: string, resource: bool, op: string, numeral: string): Term {
    Term(None, resource, key, op + numeral, false, false)
  }

  lemma Prefixes(v: string)
    ensures HasPrefix(v, ">=") <==> |v| >= 2 && v[0] == '>' && v[1] == '='
    ensures HasPrefix(v, "<=") <==> |v| >= 2 && v[0] == '<' && v[1] == '='
    ensures HasPrefix(v, ">") <==> v != "" && v[0] == '>'
    ensures HasPrefix(v, "<") <==> v != "" && v[0] == '<'
  {
  }

  lemma OperatorReads(op: Operator, numeral: string, y: real, parse: ParseNumber)
    requires IsNumeral(numeral) && parse(numeral) == Some(y)
    ensures ServerComparison(Symbol(op) + numeral, parse) == Some((op, y)) && Symbol(op) + numeral != "*"
  {
    NumeralStart(numeral);
    var v := Symbol(op) + numeral;
    Prefixes(v);
    assert v[|Symbol(op)|..] == numeral;
    if |Symbol(op)| == 2 {
      assert v[1..] == "=" + numeral;
      if IsNumeral(v[1..]) { NumeralStart(v[1..]); }
    } else {
      assert v[1] == numeral[0];
    }
    hide IsNumeral, HasPrefix;
  }

  lemma OperatorsRead(numeral: string, y: real, parse: ParseNumber)
    requires IsNumeral(numeral) && parse(numeral) == Some(y)
    ensures ServerComparison(">=" + numeral, parse) == Some((AtLeast, y)) && ">=" + numeral != "*"
    ensures ServerComparison("<=" + numeral, parse) == Some((AtMost, y)) && "<=" + numeral != "*"
    ensures ServerComparison(">" + numeral, parse) == Some((Greater, y)) && ">" + numeral != "*"
    ensures ServerComparison("<" + numeral, parse) == Some((Less, y)) && "<" + numeral != "*"
  {
    hide IsNumeral, ServerComparison;
    OperatorReads(AtLeast, numeral, y, parse);
    OperatorReads(AtMost, numeral, y, parse);
    OperatorReads(Greater, numeral, y, parse);
    OperatorReads(Less, numeral, y, parse);
  }

  /** The four comparisons of a numeric attribute, in the query. */
  lemma AttributeComparisonSelects(key: string, resource: bool, numeral: string, y: real, row: LogRow,
                                   parse: ParseNumber, fold: Fold)
    requires IsNumeral(numeral) && parse(numeral) == Some(y)
    requires var json := if resource then row.resource else row.attributes; key in json && json[key].JNumber?
    ensures var n := (if resource then row.resource else row.attributes)[key].number;
      && (Eval(AttributeClause(Compared(key, resource, ">=", numeral), parse), row, fold) == Yes <==> n >= y)
      && (Eval(AttributeClause(Compared(key, resource, "<=", numeral), parse), row, fold) == Yes <==> n <= y)
      && (Eval(AttributeClause(Compared(key, resource, ">", numeral), parse), row, fold) == Yes <==> n > y)
      && (Eval(AttributeClause(Compared(key, resource, "<", numeral), parse), row, fold) == Yes <==> n < y)
  {
    OperatorsRead(numeral, y, parse);
    PointerNamesKey(key, Document(row, resource));
    hide ServerComparison, IsNumeral, Resolve, Pointer;
  }

  function SeverityTerm(value: string): Term {
    Term(Some("severity_number"), false, "severity_number", value, false, false)
  }

  lemma SeverityComparison(op: Operator, v: string, y: real, row: LogRow, parse: ParseNumber, fold: Fold)
    requires ServerComparison(v, parse) == Some((op, y)) && v != "*"
    ensures Eval(AttributeClause(SeverityTerm(v), parse), row, fold) == Yes
      <==> row.severityNumber.Some? && Compares(row.severityNumber.value, op, y)
  {
    hide ServerComparison, NumberOf, Compares, Like;
    assert "severity_number"[0] == 's' && "severity_number"[1] == 'e' && "severity_number"[8] == '_';
    assert "severity_text"[9] == 't' && "severity_number"[9] == 'n' && "service_name"[3] == 'v';
    assert NonEmptyColumn(row, "severity_number") == Column(row, "severity_number");
  }

  /** The four comparisons of the severity, in the query; a record without one is never selected. */
  lemma SeverityComparisonSelects(numeral: string, y: real, row: LogRow, parse: ParseNumber, fold: Fold)
    requires IsNumeral(numeral) && parse(numeral) == Some(y)
    ensures var n := row.severityNumber;
      && (Eval(AttributeClause(SeverityTerm(">=" + numeral), parse), row, fold) == Yes <==> n.Some? && n.value >= y)
      && (Eval(AttributeClause(SeverityTerm("<=" + numeral), parse), row, fold) == Yes <==> n.Some? && n.value <= y)
      && (Eval(AttributeClause(SeverityTerm(">" + numeral), parse), row, fold) == Yes <==> n.Some? && n.value > y)
      && (Eval(AttributeClause(SeverityTerm("<" + numeral), parse), row, fold) == Yes <==> n.Some? && n.value < y)
  {
    hide ServerComparison, IsNumeral, Eval, AttributeClause;
    OperatorsRead(numeral, y, parse);
    SeverityComparison(AtLeast, ">=" + numeral, y, row, parse, fold);
    SeverityComparison(AtMost, "<=" + numeral, y, row, parse, fold);
    SeverityComparison(Greater, ">" + numeral, y, row, parse, fold);
    SeverityComparison(Less, "<" + numeral, y, row, parse, fold);
  }

  /** Some text of the record contains it: body, service, severity, trace id, or a JSON column as one side has it. */
  predicate IsFound(row: LogRow, attributes: string, resource: string, plain: string, fold: Fold) {
    || (row.body.Some? && Contains(row.body.value, plain, fold))
    || (row.serviceName.Some? && Contains(row.serviceName.value, plain, fold))
    || (row.severityText.Some? && Contains(row.severityText.value, plain, fold))
    || Contains(IdText(row.traceId), plain, fold)
    || Contains(attributes, plain, fold)
    || Contains(resource, plain, fold)
  }

  /** What the server's free text test asks, column by column. */
  lemma FreeTextSelects(plain: string, row: LogRow, fold: Fold)
    requires plain != ""
    ensures AnyLike(ServerTexts(row), ContainsPattern(plain), fold) == Yes <==>
      IsFound(row, row.attributesText.server, row.resourceText.server, plain, fold)
  {
    hide Contains, IdText, IsFound;
    ServerFreeText(plain, row, fold);
    SixHold(row, row.attributesText.server, row.resourceText.server, plain, fold);
  }

  /** And the browser's. */
  lemma FreeTextShows(plain: string, row: LogRow, fold: Fold)
    requires plain != ""
    ensures PlainMatches(plain, row, fold) <==>
      IsFound(row, row.attributesText.browser, row.resourceText.browser, plain, fold)
  {
    hide Contains, IdText, IsFound;
    SixHold(row, row.attributesText.browser, row.resourceText.browser, plain, fold);
  }

  lemma SixHold(row: LogRow, attributes: string, resource: string, plain: string, fold: Fold)
    requires plain != ""
    ensures SomeHolds(Texts(row, attributes, resource), plain, fold) <==>
      IsFound(row, attributes, resource, plain, fold)
  {
    hide Contains, IdText;
    NothingContains(plain, fold);
    var texts := Texts(row, attributes, resource);
    assert TextHolds(texts[0], plain, fold) <==> row.body.Some? && Contains(row.body.value, plain, fold);
    assert TextHolds(texts[1], plain, fold) <==> row.serviceName.Some? && Contains(row.serviceName.value, plain, fold);
    assert TextHolds(texts[2], plain, fold) <==>
      row.severityText.Some? && Contains(row.severityText.value, plain, fold);
    assert TextHolds(texts[3], plain, fold) <==> Contains(IdText(row.traceId), plain, fold);
    assert TextHolds(texts[4], plain, fold) <==> Contains(attributes, plain, fold);
    assert TextHolds(texts[5], plain, fold) <==> Contains(resource, plain, fold);
  }

  /** A quoted filter on a built-in field. */
  function Quoted(field: string, value: string): Term { Term(Some(field), false, field, value, true, false) }

  lemma QuotedCell(field: string, value: string, row: LogRow, parse: ParseNumber, fold: Fold)
    requires !IsNumericField(field)
    ensures var text := CellText(NonEmptyColumn(row, field));
      Eval(AttributeClause(Quoted(field, value), parse), row, fold) == Yes <==>
      text.Some? && SameText(value, text.value, fold)
  {
    var text := CellText(NonEmptyColumn(row, field));
    if text.Some? { EscapedIsLiteral(value, text.value, fold); }
    hide NonEmptyColumn, CellText, Like, SameText, EscapeLike, NumberOf, IsNumericField;
  }

  /** Which column each textual field is about. */
  lemma FieldsAreColumns(row: LogRow)
    ensures CellText(NonEmptyColumn(row, "body")) == row.body
    ensures CellText(NonEmptyColumn(row, "service_name")) == row.serviceName
    ensures CellText(NonEmptyColumn(row, "severity_text")) == row.severityText
    ensures CellText(NonEmptyColumn(row, "trace_id"))
      == if exists i :: 0 <= i < |row.traceId| && row.traceId[i] != 0 then Some(IdText(row.traceId)) else None
    ensures CellText(NonEmptyColumn(row, "span_id"))
      == if exists i :: 0 <= i < |row.spanId| && row.spanId[i] != 0 then Some(IdText(row.spanId)) else None
  {
    IdTextIsOrdinary(row.traceId);
    IdTextIsOrdinary(row.spanId);
    assert IsZeros(Zeros(32)) && IsZeros(Zeros(16));
    hide IdText, IsZeros, Zeros;
    assert "service_name"[3] == 'v' && "severity_text"[3] == 'e' && "trace_id"[0] == 't' && "span_id"[1] == 'p';
  }

  /** A quoted filter on a textual field selects by equality with its column, up to case. */
  lemma QuotedFieldSelects(value: string, row: LogRow, parse: ParseNumber, fold: Fold)
    ensures Eval(AttributeClause(Quoted("body", value), parse), row, fold) == Yes
      <==> row.body.Some? && SameText(value, row.body.value, fold)
    ensures Eval(AttributeClause(Quoted("service_name", value), parse), row, fold) == Yes
      <==> row.serviceName.Some? && SameText(value, row.serviceName.value, fold)
    ensures Eval(AttributeClause(Quoted("severity_text", value), parse), row, fold) == Yes
      <==> row.severityText.Some? && SameText(value, row.severityText.value, fold)
    ensures Eval(AttributeClause(Quoted("trace_id", value), parse), row, fold) == Yes
      <==> (exists i :: 0 <= i < |row.traceId| && row.traceId[i] != 0) && SameText(value, IdText(row.traceId), fold)
    ensures Eval(AttributeClause(Quoted("span_id", value), parse), row, fold) == Yes
      <==> (exists i :: 0 <= i < |row.spanId| && row.spanId[i] != 0) && SameText(value, IdText(row.spanId), fold)
  {
    hide AttributeClause, Eval, NonEmptyColumn, CellText, SameText, IdText;
    FieldsAreColumns(row);
    QuotedCell("body", value, row, parse, fold);
    QuotedCell("service_name", value, row, parse, fold);
    QuotedCell("severity_text", value, row, parse, fold);
    QuotedCell("trace_id", value, row, parse, fold);
    QuotedCell("span_id", value, row, parse, fold);
  }

  lemma QuotedLike(value: string, row: LogRow, fold: Fold)
    ensures forall text :: Like(EscapeLike(value), text, fold) <==> SameText(value, text, fold)
  {
    forall text ensures Like(EscapeLike(value), text, fold) <==> SameText(value, text, fold) {
      EscapedIsLiteral(value, text, fold);
    }
  }

  /** A quoted filter on an attribute selects the member with that key and text, of the document it names. */
  lemma QuotedAttributeSelects(key: string, resource: bool, value: string, row: LogRow, parse: ParseNumber, fold: Fold)
    ensures var json := if resource then row.resource else row.attributes;
      Eval(AttributeClause(Term(None, resource, key, value, true, false), parse), row, fold) == Yes <==>
      key in json && match json[key]
        case JString(text) => SameText(value, text, fold)
        case JNumber(_, text, _) => SameText(value, text, fold)
        case JBool(b) => SameText(value, if b then "true" else "false", fold)
        case _ => false
  {
    PointerNamesKey(key, Document(row, resource));
    QuotedLike(value, row, fold);
    hide Resolve, Pointer, Like, SameText, EscapeLike;
  }

  /** What an unquoted value without a comparison asks of a text: equality up to case, or what one star means. */
  ghost predicate Asks(value: string, text: string, fold: Fold) {
    && ('*' !in value ==> SameText(value, text, fold))
    && (forall a, b :: value == a + "*" + b && '*' !in a && '*' !in b ==>
          |a| + |b| <= |text| && SameText(a, text[..|a|], fold) && SameText(b, text[|text| - |b|..], fold))
  }

  lemma UnquotedAsks(value: string, text: string, fold: Fold, a: string, b: string)
    requires '*' !in value || (value == a + "*" + b && '*' !in a && '*' !in b)
    ensures Like(StarsToPercent(EscapeLike(value)), text, fold) <==> Asks(value, text, fold)
  {
    hide Like, StarsToPercent, EscapeLike, SameText;
    if '*' !in value {
      NoStarMatches(value, text, fold);
    } else {
      OneStarMatches(a, b, text, fold);
      forall c, d | value == c + "*" + d && '*' !in c && '*' !in d ensures c == a && d == b {
        OneStarOnly(a, b, c, d);
      }
    }
  }

  lemma OneStarOnly(a: string, b: string, c: string, d: string)
    requires a + "*" + b == c + "*" + d && '*' !in a && '*' !in b && '*' !in c && '*' !in d
    ensures c == a && d == b
  {
    SplitAtStar(a, b);
    SplitAtStar(c, d);
    assert [a, b][0] == a && [c, d][0] == c && [a, b][1] == b && [c, d][1] == d;
  }

  /** An unquoted filter on an attribute, with at most one star and no comparison. */
  lemma UnquotedAttributeSelects(key: string, resource: bool, value: string, row: LogRow, parse: ParseNumber,
                                 fold: Fold, a: string, b: string)
    requires '*' !in value || (value == a + "*" + b && '*' !in a && '*' !in b && value != "*")
    requires value == "" || (value[0] != '<' && value[0] != '>')
    ensures var json := if resource then row.resource else row.attributes;
      Eval(AttributeClause(Term(None, resource, key, value, false, false), parse), row, fold) == Yes <==>
      key in json && match json[key]
        case JString(text) => Asks(value, text, fold)
        case JNumber(_, text, _) => Asks(value, text, fold)
        case JBool(flag) => Asks(value, if flag then "true" else "false", fold)
        case _ => false
  {
    hide Resolve, Pointer, Like, Asks, EscapeLike, StarsToPercent, AttributeClause;
    PointerNamesKey(key, Document(row, resource));
    UnquotedClause(key, resource, value, parse);
    forall text ensures Like(StarsToPercent(EscapeLike(value)), text, fold) <==> Asks(value, text, fold) {
      UnquotedAsks(value, text, fold, a, b);
    }
  }

  lemma UnquotedClause(key: string, resource: bool, value: string, parse: ParseNumber)
    requires value != "*" && (value == "" || (value[0] != '<' && value[0] != '>'))
    ensures AttributeClause(Term(None, resource, key, value, false, false), parse)
      == JsonLike(resource, Pointer(key), StarsToPercent(EscapeLike(value)))
  {
    NoOperatorNoComparison(value, parse);
    hide Pointer, EscapeLike, StarsToPercent, ServerComparison;
  }

  lemma NoOperatorNoComparison(value: string, parse: ParseNumber)
    requires value == "" || (value[0] != '<' && value[0] != '>')
    ensures ServerComparison(value, parse).None?
  {
    hide IsNumeral;
  }

  /** A numeral selects the records of that severity number. */
  lemma SeverityNumberSelects(numeral: string, y: real, row: LogRow, parse: ParseNumber, fold: Fold)
    requires IsNumeral(numeral) && parse(numeral) == Some(y)
    ensures Eval(AttributeClause(SeverityTerm(numeral), parse), row, fold) == Yes
      <==> row.severityNumber.Some? && row.severityNumber.value == y
  {
    NumeralIsNoOperator(numeral);
    NoOperatorNoComparison(numeral, parse);
    hide ServerComparison, IsNumeral;
  }

  lemma NumeralIsNoOperator(numeral: string)
    requires IsNumeral(numeral)
    ensures numeral != "" && numeral[0] != '<' && numeral[0] != '>' && numeral != "*"
  {
  }

  /** A star asks for presence: a column that is not NULL, a member that is not null. */
  lemma StarSelects(key: string, resource: bool, row: LogRow, parse: ParseNumber, fold: Fold)
    ensures var json := if resource then row.resource else row.attributes;
      Eval(AttributeClause(Term(None, resource, key, "*", false, false), parse), row, fold) == Yes
      <==> key in json && json[key] != JNull
    ensures forall field ::
      Eval(AttributeClause(Term(Some(field), false, field, "*", false, false), parse), row, fold) == Yes
      <==> NonEmptyColumn(row, field) != Null
  {
    PointerNamesKey(key, Document(row, resource));
    hide Resolve, Pointer;
  }

  /** A negated filter selects exactly what the filter does not, unknown included. */
  lemma NegationSelects(term: Term, row: LogRow, parse: ParseNumber, fold: Fold)
    requires !term.negated
    ensures Eval(TermClause(term.(negated := true), parse), row, fold) == Yes
      <==> Eval(TermClause(term, parse), row, fold) != Yes
  {
    SameButNegated(term, parse);
    hide AttributeClause;
  }

  lemma SameButNegated(term: Term, parse: ParseNumber)
    ensures AttributeClause(term.(negated := true), parse) == AttributeClause(term, parse)
  {
  }

  lemma {:induction false} PiecesHold(pieces: seq<Piece>, row: LogRow, parse: ParseNumber, fold: Fold)
    ensures AllClauses(Clauses(TermsAmong(pieces), parse), row, fold) == Yes <==>
      forall i :: 0 <= i < |pieces| && pieces[i].Filtering? ==>
        Eval(TermClause(pieces[i].term, parse), row, fold) == Yes
  {
    hide Eval, TermClause;
    if pieces != [] {
      var n := |pieces| - 1;
      var terms := TermsAmong(pieces[..n]);
      PiecesHold(pieces[..n], row, parse, fold);
      assert forall i :: 0 <= i < n ==> pieces[..n][i] == pieces[i];
      assert terms + [] == terms;
      if pieces[n].Filtering? { OneMoreClause(terms, pieces[n].term, row, parse, fold); }
    }
  }

  lemma OneMoreClause(terms: seq<Term>, term: Term, row: LogRow, parse: ParseNumber, fold: Fold)
    ensures AllClauses(Clauses(terms + [term], parse), row, fold) == Yes <==>
      AllClauses(Clauses(terms, parse), row, fold) == Yes && Eval(TermClause(term, parse), row, fold) == Yes
  {
    hide Eval, TermClause;
    assert (terms + [term])[..|terms|] == terms;
    var clauses := Clauses(terms, parse);
    assert (clauses + [TermClause(term, parse)])[..|clauses|] == clauses;
  }

  /** A search as typed selects the records that pass every filter in it and contain its words as one text. */
  lemma SearchSelects(pieces: seq<Piece>, row: LogRow, parse: ParseNumber, fold: Fold)
    requires (forall i :: 0 <= i < |pieces| ==> PieceOk(pieces[i], LOG_FIELDS)) && TermsAmong(pieces) != []
    ensures var text := Joined(SearchedWords(pieces));
      Selects(Compiled(Joined(PieceTexts(pieces)), parse), row, fold) <==>
        && (text == "" || IsFound(row, row.attributesText.server, row.resourceText.server, text, fold))
        && forall i :: 0 <= i < |pieces| && pieces[i].Filtering? ==>
             Eval(TermClause(pieces[i].term, parse), row, fold) == Yes
  {
    hide PieceOk, AreNames, Parsed, Joined, SearchedWords, AnyLike, AllClauses, Clauses, TermClause, Eval, IsFound,
      ContainsPattern, ServerTexts, TermsAmong, SomeHolds;
    LogFieldsAreNames();
    MixedSearchReads(pieces, LOG_FIELDS);
    PiecesHold(pieces, row, parse, fold);
    var text := Joined(SearchedWords(pieces));
    ServerFreeText(text, row, fold);
    if text != "" { FreeTextSelects(text, row, fold); }
  }

  // ---- Where they part ----

  /** Server and browser answer a term alike. */
  ghost predicate AnswerAlike(term: Term, row: LogRow, parse: ParseNumber, fold: Fold) {
    Eval(AttributeClause(term, parse), row, fold) == Yes <==> TermMatches(term, BrowserValue(row, term), parse, fold)
  }

  /** A built-in field, ids included, is answered alike by every term on every record: no condition. */
  lemma FieldsAgree(term: Term, row: LogRow, parse: ParseNumber, fold: Fold)
    requires term.field.Some?
    ensures AnswerAlike(term, row, parse, fold)
  {
    hide AttributeClause, TermMatches, BrowserValue, NonEmptyColumn;
    CellsAgree(term, row);
    FieldAgrees(term, row, parse, fold);
  }

  /** Asking for exactly the text the database writes for the number under `key`. */
  function ExactText(key: string, json: Json): Term
    requires json.JNumber?
  {
    Term(None, false, key, json.sqlText, true, false)
  }

  /** Asking for it, the query finds a number the two sides write differently and the browser does not. */
  lemma ExactTextParts(key: string, row: LogRow, parse: ParseNumber, fold: Fold)
    requires key in row.attributes && row.attributes[key].JNumber? && !IsWrittenAlike(row.attributes[key], fold)
    ensures var term := ExactText(key, row.attributes[key]);
      Eval(AttributeClause(term, parse), row, fold) == Yes && !TermMatches(term, BrowserValue(row, term), parse, fold)
  {
    var json := row.attributes[key];
    var term := ExactText(key, json);
    PointerNamesKey(key, Document(row, false));
    EscapedIsLiteral(json.sqlText, json.sqlText, fold);
    assert Eval(AttributeClause(term, parse), row, fold) == Yes;
    assert !SameText(json.sqlText, json.browserText, fold);
  }

  /** A numeric attribute is found alike by every filter exactly when both sides write it alike. */
  lemma NumbersAgreeIff(key: string, row: LogRow, parse: ParseNumber, fold: Fold)
    requires key in row.attributes && row.attributes[key].JNumber?
    ensures IsWrittenAlike(row.attributes[key], fold) <==> forall term: Term ::
      term.field.None? && !term.resource && term.key == key ==> AnswerAlike(term, row, parse, fold)
  {
    var json := row.attributes[key];
    if IsWrittenAlike(json, fold) {
      forall term: Term | term.field.None? && !term.resource && term.key == key
        ensures AnswerAlike(term, row, parse, fold)
      {
        AttributeAgrees(term, row, parse, fold);
      }
    } else {
      ExactTextParts(key, row, parse, fold);
      assert !AnswerAlike(ExactText(key, json), row, parse, fold);
    }
  }

  /** Texts that agree character by character. */
  const EXACT: Fold := c => c

  lemma NeedsItsCharacters(text: string, s: string, c: char)
    requires Contains(text, s, EXACT) && c in s
    ensures c in text
  {
    var k :| 0 <= k <= |text| && StartsWith(text[k..], s, EXACT);
    var i :| 0 <= i < |s| && s[i] == c;
    assert text[k..][..|s|][i] == text[k + i];
  }

  /** A record without attributes whose resource is one string. */
  function StringRow(key: string, value: string): LogRow {
    LogRow([], [], None, None, None, "", None, map[], map[key := JString(value)], JsonText("{}", "{}"),
      JsonText("{" + Marshal(key) + ":" + Marshal(value) + "}", "{" + Quote(key) + ":" + Quote(value) + "}"))
  }

  lemma PlainSearch()
    ensures Parsed("a<b", LOG_FIELDS) == ("a<b", [])
  {
    var search, end := "a<b", Scan([], "a<b", false, false);
    var one, two := Scan([], "a", false, false), Scan([], "a<", false, false);
    assert Step(START, 'a') == one && Step(one, '<') == two && Step(two, 'b') == end;
    assert search[1..] == "<b" && "<b"[1..] == "b" && "b"[1..] == "";
    assert ScanFrom(START, search) == ScanFrom(one, "<b") == ScanFrom(two, "b") == ScanFrom(end, "") == end;
    assert Finished(end) == [search];
    assert Tokens(search) == Some([search]);
    hide Tokens, ScanFrom;
    var tokens: seq<string> := [search];
    assert tokens[..0] == [];
    assert ReadToken(search, LOG_FIELDS) == PlainText;
    assert Collected([search], LOG_FIELDS) == Some(([search], []));
  }

  lemma AngleBracketLiterals()
    ensures QuoteBody("a<b") == "a<b" && MarshalBody("a<b") == "a\\u003cb"
    ensures QuoteBody("k") == "k" && MarshalBody("k") == "k"
  {
    assert "a<b"[1..] == "<b" && "<b"[1..] == "b" && "b"[1..] == "" && "k"[1..] == "";
    assert QuoteChar('a') == "a" && QuoteChar('<') == "<" && QuoteChar('b') == "b" && QuoteChar('k') == "k";
    assert MarshalChar('a') == "a" && MarshalChar('<') == "\\u003c" && MarshalChar('b') == "b" &&
      MarshalChar('k') == "k";
    hide QuoteChar, MarshalChar;
    assert QuoteBody("b") == "b" && QuoteBody("<b") == "<b";
    assert MarshalBody("b") == "b" && MarshalBody("<b") == "\\u003cb";
  }

  lemma AngleBracketTexts()
    ensures var row := StringRow("k", "a<b");
      && row.resourceText.browser == "{\"k\":\"a<b\"}"
      && row.resourceText.server == "{\"k\":\"a\\u003cb\"}"
  {
    hide QuoteBody, MarshalBody;
    AngleBracketLiterals();
  }

  /** A value with an angle bracket: searching for it, the browser shows the record and the query does not select it. */
  lemma AngleBracketParts(parse: ParseNumber)
    ensures var row := StringRow("k", "a<b");
      BrowserMatches("a<b", row, parse, EXACT) && !Selects(Compiled("a<b", parse), row, EXACT)
  {
    var row, s := StringRow("k", "a<b"), "a<b";
    hide Parsed, SomeHolds, AnyLike, ContainsPattern, Quote, Marshal;
    PlainSearch();
    AngleBracketTexts();
    AngleBracketIsShown(row);
    AngleBracketIsMissed(row);
    ServerFreeText(s, row, EXACT);
  }

  lemma AngleBracketIsShown(row: LogRow)
    requires row.resourceText.browser == "{\"k\":\"a<b\"}"
    ensures SomeHolds(BrowserTexts(row), "a<b", EXACT)
  {
    var text := row.resourceText.browser;
    assert text[6..][..3] == "a<b";
    assert StartsWith(text[6..], "a<b", EXACT);
    assert TextHolds(BrowserTexts(row)[5], "a<b", EXACT);
  }

  lemma AngleBracketIsMissed(row: LogRow)
    requires row.body.None? && row.serviceName.None? && row.severityText.None? && row.traceId == []
    requires row.attributesText.server == "{}" && row.resourceText.server == "{\"k\":\"a\\u003cb\"}"
    ensures !SomeHolds(ServerTexts(row), "a<b", EXACT)
  {
    forall i | 0 <= i < 6 ensures !TextHolds(ServerTexts(row)[i], "a<b", EXACT) {
      var text := OrEmpty(ServerTexts(row)[i]);
      assert '<' !in text;
      if TextHolds(ServerTexts(row)[i], "a<b", EXACT) {
        assert "a<b"[1] == '<';
        NeedsItsCharacters(text, "a<b", '<');
      }
    }
  }

  /** 2^53 + 1 as the database writes it and as the browser does, which reads it as the double next to it. */
  const BIG: Json := JNumber(9007199254740992.0, "9007199254740993", "9007199254740992")

  /** Asking for the number the database shows: the query finds the record and the browser does not. */
  lemma BigNumberParts(row: LogRow, key: string, parse: ParseNumber)
    requires key in row.attributes && row.attributes[key] == BIG
    ensures var term := ExactText(key, BIG);
      && Eval(AttributeClause(term, parse), row, EXACT) == Yes
      && !TermMatches(term, BrowserValue(row, term), parse, EXACT)
  {
    hide AttributeClause, TermMatches, Eval, BrowserValue, IsNumeral;
    assert BIG.sqlText[15] != BIG.browserText[15];
    assert !IsWrittenAlike(BIG, EXACT);
    ExactTextParts(key, row, parse, EXACT);
  }
}
