// Filter drafts edited in the browser, and their conversion to and from search terms.
module LogFilter {
  import opened JsonPointer
  import opened LogSearch
  import opened Order
  import opened Patterns
  import opened SearchSyntax

  datatype FilterOperator =
    | Is | IsNot | Includes | NotIncludes | Matches | NotMatches | Exists | NotExists | Compare(op: Operator)

  datatype Draft = Draft(key: string, operator: FilterOperator, value: string)

  datatype DraftError = ChooseField | NotNumeric | NotFinite | NoValue

  function TrimStart(s: string): string {
    if s != "" && IsSpace(s[0]) then TrimStart(s[1..]) else s
  }

  function TrimEnd(s: string): string {
    if s != "" && IsSpace(s[|s| - 1]) then TrimEnd(s[..|s| - 1]) else s
  }

  function Trim(s: string): string { TrimEnd(TrimStart(s)) }

  /** `^(attributes|resource)\.[^\s:"]+$`. */
  predicate IsAttributeKey(key: string) {
    || (HasPrefix(key, "attributes.") && IsPlainKey(key[11..]))
    || (HasPrefix(key, "resource.") && IsPlainKey(key[9..]))
  }

  predicate NeedsValue(op: FilterOperator) { op.Includes? || op.NotIncludes? || op.Matches? || op.NotMatches? }

  /** Why a draft cannot be added, if it cannot. */
  function FilterDraftError(d: Draft, fields: seq<string>, numericFields: seq<string>,
                            parse: ParseNumber): Option<DraftError> {
    var key := Trim(d.key);
    if key !in fields && !IsAttributeKey(key) then Some(ChooseField)
    else if key in fields && key !in numericFields && d.operator.Compare? then Some(NotNumeric)
    else if d.operator.Compare? && NumberOf(d.value, parse).None? then Some(NotFinite)
    else if NeedsValue(d.operator) && d.value == "" then Some(NoValue)
    else None
  }

  /** `slice(indexOf(".") + 1)`: all of a key without a dot. */
  function AfterFirstDot(key: string): string {
    var dot := IndexOf(key, '.');
    if dot.None? then key else key[dot.value + 1..]
  }

  function DraftValue(op: FilterOperator, value: string): string {
    if op.Exists? || op.NotExists? then "*"
    else if op.Includes? || op.NotIncludes? then "*" + value + "*"
    else if op.Compare? then Symbol(op.op) + value
    else value
  }

  predicate IsQuoting(op: FilterOperator) { op.Is? || op.IsNot? }

  predicate IsNegating(op: FilterOperator) { op.IsNot? || op.NotIncludes? || op.NotExists? || op.NotMatches? }

  function DraftTerm(d: Draft, fields: seq<string>): Term {
    var key := Trim(d.key);
    Term(
      if key in fields then Some(key) else None, HasPrefix(key, "resource."), AfterFirstDot(key),
      DraftValue(d.operator, d.value), IsQuoting(d.operator), IsNegating(d.operator))
  }

  /** `String(number)`. */
  type Render = real -> string

  function FilterDraft(t: Term, parse: ParseNumber, render: Render): Draft {
    var key, comparison, v := TermKey(t), BrowserComparison(t, parse), t.value;
    if comparison.Some? && t.negated then Draft(key, NotMatches, v)
    else if comparison.Some? then Draft(key, Compare(comparison.value.0), render(comparison.value.1))
    else if !t.quoted && v == "*" then Draft(key, if t.negated then NotExists else Exists, "")
    else if !t.quoted && |v| >= 2 && v[0] == '*' && v[|v| - 1] == '*' then
      Draft(key, if t.negated then NotIncludes else Includes, v[1..|v| - 1])
    else if !t.quoted && IndexOf(v, '*').Some? then Draft(key, if t.negated then NotMatches else Matches, v)
    else Draft(key, if t.negated then IsNot else Is, v)
  }

  // ---- Drafts yield terms ----

  lemma DottedKey(prefix: string, rest: string)
    requires IndexOf(prefix, '.').None?
    ensures AfterFirstDot(prefix + "." + rest) == rest
  {
    var key := prefix + "." + rest;
    assert key[|prefix|] == '.' && forall j :: 0 <= j < |prefix| ==> key[j] == prefix[j];
  }

  lemma KeyOfDraft(key: string, fields: seq<string>)
    requires AreNames(fields) && (key in fields || IsAttributeKey(key))
    ensures key in fields ==> AfterFirstDot(key) == key && !HasPrefix(key, "resource.")
    ensures key !in fields ==> IsPlainKey(AfterFirstDot(key))
  {
    if key in fields {
      NamesHaveNoDot(fields, key);
      assert |key| > 8 ==> key[8] != '.';
    } else {
      AttributeKeyIsPlain(key);
    }
  }

  lemma AttributeKeyIsPlain(key: string)
    requires IsAttributeKey(key)
    ensures IsPlainKey(AfterFirstDot(key))
  {
    AttributesHasNoDot();
    hide IndexOf, IsPlainKey, AfterFirstDot;
    if HasPrefix(key, "attributes.") && IsPlainKey(key[11..]) {
      assert key == "attributes." + key[11..] == "attributes" + "." + key[11..];
      DottedKey("attributes", key[11..]);
    } else {
      assert key == "resource." + key[9..] == "resource" + "." + key[9..];
      DottedKey("resource", key[9..]);
    }
  }

  /** Every draft that validates becomes a term the search language can express. */
  lemma AcceptedDraftIsWellFormed(d: Draft, fields: seq<string>, numericFields: seq<string>, parse: ParseNumber)
    requires AreNames(fields) && FilterDraftError(d, fields, numericFields, parse).None?
    ensures WellFormed(DraftTerm(d, fields), fields)
  {
    KeyOfDraft(Trim(d.key), fields);
    hide Trim, AreNames, IsAttributeKey, AfterFirstDot, IsPlainKey, NumberOf;
  }

  /** So the drafts in a filter list survive the trip through the search text. */
  lemma DraftsSurviveTheSearch(drafts: seq<Draft>, terms: seq<Term>, fields: seq<string>, numericFields: seq<string>,
                               parse: ParseNumber)
    requires AreNames(fields) && drafts != [] && |terms| == |drafts|
    requires forall i :: 0 <= i < |drafts| ==> FilterDraftError(drafts[i], fields, numericFields, parse).None?
    requires forall i :: 0 <= i < |drafts| ==> terms[i] == DraftTerm(drafts[i], fields)
    ensures Parsed(Joined(SerializedAll(terms)), fields) == ("", terms)
  {
    hide FilterDraftError, DraftTerm, WellFormed, Parsed, Joined, SerializedAll;
    forall i | 0 <= i < |terms| ensures WellFormed(terms[i], fields) {
      AcceptedDraftIsWellFormed(drafts[i], fields, numericFields, parse);
    }
    ParseInvertsSerialize(terms, fields);
  }

  /** The terms of a list of log filters. */
  function LogTerms(drafts: seq<Draft>): seq<Term> {
    seq(|drafts|, i requires 0 <= i < |drafts| => DraftTerm(drafts[i], LOG_FIELDS))
  }

  /** Any list of log filters the editor accepts comes back from its search text, filter by filter. */
  lemma LogFiltersSurvive(drafts: seq<Draft>, parse: ParseNumber)
    requires drafts != []
    requires forall i :: 0 <= i < |drafts| ==> FilterDraftError(drafts[i], LOG_FIELDS, ["severity_number"], parse).None?
    ensures Parsed(Joined(SerializedAll(LogTerms(drafts))), LOG_FIELDS) == ("", LogTerms(drafts))
  {
    hide FilterDraftError, DraftTerm, AreNames, Parsed, Joined, SerializedAll;
    LogFieldsAreNames();
    DraftsSurviveTheSearch(drafts, LogTerms(drafts), LOG_FIELDS, ["severity_number"], parse);
  }

  // ---- What a filter asks ----

  /** The value has a text, and it is this one up to case. */
  predicate HasText(value: Option<Json>, text: string, fold: Fold) {
    value.Some? && BrowserText(value.value).Some? && SameText(text, BrowserText(value.value).value, fold)
  }

  predicate IncludesText(value: Option<Json>, text: string, fold: Fold) {
    value.Some? && BrowserText(value.value).Some? && Contains(BrowserText(value.value).value, text, fold)
  }

  predicate IsNumber(value: Option<Json>) { value.Some? && value.value.JNumber? }

  /** Which value it asks about: the attribute or resource attribute of the literal key after the first dot. */
  lemma DraftNamesValue(d: Draft, row: LogRow, resource: bool, key: string)
    requires Trim(d.key) == (if resource then "resource" else "attributes") + "." + key
    ensures var members := if resource then row.resource else row.attributes;
      BrowserValue(row, DraftTerm(d, LOG_FIELDS)) == if key in members then Some(members[key]) else None
  {
    DraftNamesKey(d, resource, key);
    hide DraftTerm, Trim;
  }

  lemma DraftNamesKey(d: Draft, resource: bool, key: string)
    requires Trim(d.key) == (if resource then "resource" else "attributes") + "." + key
    ensures var t := DraftTerm(d, LOG_FIELDS); t.field.None? && t.resource == resource && t.key == key
  {
    hide Trim, AreNames, IndexOf, AfterFirstDot;
    AttributesHasNoDot();
    LogFieldsAreNames();
    DottedName(Trim(d.key), resource, key);
    DottedKey(if resource then "resource" else "attributes", key);
    if Trim(d.key) in LOG_FIELDS { NamesHaveNoDot(LOG_FIELDS, Trim(d.key)); }
  }

  lemma DottedName(name: string, resource: bool, key: string)
    requires name == (if resource then "resource" else "attributes") + "." + key
    ensures '.' in name && HasPrefix(name, "resource.") == resource
  {
    var prefix := if resource then "resource" else "attributes";
    assert name[|prefix|] == '.' && name[0] == prefix[0];
    if resource { assert name[..9] == "resource" + "."; }
  }

  /** Presence and absence. */
  lemma ExistsMeans(d: Draft, row: LogRow, parse: ParseNumber, fold: Fold)
    requires d.operator.Exists? || d.operator.NotExists?
    ensures var t := DraftTerm(d, LOG_FIELDS);
      var there := BrowserValue(row, t).Some? && !BrowserValue(row, t).value.JNull?;
      BrowserTerm(t, row, parse, fold) <==> if d.operator.Exists? then there else !there
  {
    var t := DraftTerm(d, LOG_FIELDS);
    MatcherChoice(t, BrowserValue(row, t), parse, fold);
    hide BrowserValue, TermMatches, Trim;
  }

  /** Equality and inequality of a text, of any field but the one numeric one. */
  lemma IsMeans(d: Draft, row: LogRow, parse: ParseNumber, fold: Fold)
    requires (d.operator.Is? || d.operator.IsNot?) && Trim(d.key) != "severity_number"
    ensures var t := DraftTerm(d, LOG_FIELDS);
      BrowserTerm(t, row, parse, fold) <==>
      if d.operator.Is? then HasText(BrowserValue(row, t), d.value, fold)
      else !HasText(BrowserValue(row, t), d.value, fold)
  {
    var t := DraftTerm(d, LOG_FIELDS);
    MatcherChoice(t, BrowserValue(row, t), parse, fold);
    QuotedNeverCompares(t, parse);
    assert t.field != Some("severity_number");
    hide BrowserValue, TermMatches, Trim, NumberOf, SameText;
  }

  /** Containing a text, and not. */
  lemma IncludesMeans(d: Draft, row: LogRow, parse: ParseNumber, fold: Fold)
    requires (d.operator.Includes? || d.operator.NotIncludes?) && d.value != "" && '*' !in d.value
    ensures var t := DraftTerm(d, LOG_FIELDS);
      BrowserTerm(t, row, parse, fold) <==>
      if d.operator.Includes? then IncludesText(BrowserValue(row, t), d.value, fold)
      else !IncludesText(BrowserValue(row, t), d.value, fold)
  {
    var t := DraftTerm(d, LOG_FIELDS);
    var value := BrowserValue(row, t);
    assert t.value == "*" + d.value + "*" && t.value != "*" && t.value[0] == '*';
    StarStartsNoNumber(t, parse);
    MatcherChoice(t, value, parse, fold);
    hide BrowserValue, TermMatches, Trim, NumberOf, Contains, PartsMatch, BrowserComparison, Split;
    if value.Some? && BrowserText(value.value).Some? {
      BetweenStars(d.value, BrowserText(value.value).value, fold);
    }
  }

  lemma StarStartsNoNumber(t: Term, parse: ParseNumber)
    requires t.value != "" && t.value[0] == '*'
    ensures BrowserComparison(t, parse).None? && NumberOf(t.value, parse).None?
  {
  }

  /** The four comparisons with a number. */
  lemma CompareMeans(d: Draft, row: LogRow, parse: ParseNumber, fold: Fold, y: real)
    requires d.operator.Compare? && NumberOf(d.value, parse) == Some(y)
    ensures var t := DraftTerm(d, LOG_FIELDS);
      var value := BrowserValue(row, t);
      && (d.operator.op.AtLeast? ==>
            (BrowserTerm(t, row, parse, fold) <==> IsNumber(value) && value.value.number >= y))
      && (d.operator.op.AtMost? ==>
            (BrowserTerm(t, row, parse, fold) <==> IsNumber(value) && value.value.number <= y))
      && (d.operator.op.Greater? ==>
            (BrowserTerm(t, row, parse, fold) <==> IsNumber(value) && value.value.number > y))
      && (d.operator.op.Less? ==>
            (BrowserTerm(t, row, parse, fold) <==> IsNumber(value) && value.value.number < y))
  {
    var t := DraftTerm(d, LOG_FIELDS);
    ComparisonIsRead(t, d.operator.op, d.value, y, parse);
    MatcherChoice(t, BrowserValue(row, t), parse, fold);
    hide BrowserValue, TermMatches, Trim, NumberOf, BrowserComparison;
  }

  lemma ComparisonIsRead(t: Term, op: Operator, text: string, y: real, parse: ParseNumber)
    requires NumberOf(text, parse) == Some(y) && !t.quoted && t.value == Symbol(op) + text
    ensures BrowserComparison(t, parse) == Some((op, y)) && t.value != "*"
  {
    NumeralStart(text);
    hide IsNumeral;
    var v := t.value;
    assert v[|Symbol(op)|..] == text;
    assert v[0] == Symbol(op)[0];
    if |Symbol(op)| == 2 { assert v[1] == '='; } else { assert v[1] == text[0]; }
  }

  // ---- Terms to drafts and back ----

  /** A number is written as a numeral that reads as the same number. */
  ghost predicate IsRender(parse: ParseNumber, render: Render) {
    forall s :: parse(s).Some? ==> NumberOf(render(parse(s).value), parse) == parse(s)
  }

  lemma TrimmedAlready(s: string)
    requires s != "" && !IsSpace(s[0]) && !IsSpace(s[|s| - 1])
    ensures Trim(s) == s
  {
  }

  lemma TermKeyIsTrimmed(t: Term, fields: seq<string>)
    requires AreNames(fields) && WellFormed(t, fields)
    ensures Trim(TermKey(t)) == TermKey(t)
  {
    var k := TermKey(t);
    if t.field.Some? {
      var i :| 0 <= i < |fields| && fields[i] == k;
      assert IsName(fields[i]);
    } else {
      assert k[|k| - 1] == t.key[|t.key| - 1];
    }
    TrimmedAlready(k);
  }

  lemma AttributesHasNoDot()
    ensures IndexOf("attributes", '.').None? && IndexOf("resource", '.').None?
  {
    assert '.' !in "attributes" && '.' !in "resource";
  }

  lemma TermKeyReads(t: Term, fields: seq<string>)
    requires AreNames(fields) && WellFormed(t, fields)
    ensures t.field == if TermKey(t) in fields then Some(TermKey(t)) else None
    ensures t.resource == HasPrefix(TermKey(t), "resource.") && t.key == AfterFirstDot(TermKey(t))
  {
    NotNegatedTwice(t, fields);
    if t.field.Some? {
      KeyOfDraft(TermKey(t), fields);
    } else {
      AttributesHasNoDot();
      DottedKey(if t.resource then "resource" else "attributes", t.key);
    }
  }

  lemma {:induction false} SplitWithoutStar(s: string)
    requires IndexOf(s, '*').None?
    ensures Split(s) == [s]
  {
    if s != "" {
      SplitWithoutStar(s[1..]);
      assert [s[0]] + s[1..] == s;
    }
  }

  lemma RenderedComparison(t: Term, op: Operator, x: real, parse: ParseNumber, render: Render, s: string)
    requires IsRender(parse, render) && parse(s) == Some(x) && !t.quoted && t.value == Symbol(op) + render(x)
    ensures BrowserComparison(t, parse) == Some((op, x))
  {
    ComparisonIsRead(t, op, render(x), x, parse);
  }

  /** The comparison of a term was read from some numeral in it. */
  lemma ComparisonHasSource(t: Term, parse: ParseNumber) returns (s: string)
    ensures BrowserComparison(t, parse).Some? ==> parse(s) == Some(BrowserComparison(t, parse).value.1)
  {
    hide IsNumeral;
    var comparison := BrowserComparison(t, parse);
    s := if comparison.Some? then t.value[|Symbol(comparison.value.0)|..] else "";
  }

  /** What a round trip changes: a comparison's number is written anew, an unquoted value without stars is quoted. */
  function Redrafted(t: Term, parse: ParseNumber, render: Render): Term {
    var comparison := BrowserComparison(t, parse);
    if comparison.Some? && !t.negated then t.(value := Symbol(comparison.value.0) + render(comparison.value.1))
    else if comparison.None? && !t.quoted && IndexOf(t.value, '*').None? then t.(quoted := true)
    else t
  }

  lemma RedraftedParts(t: Term, parse: ParseNumber, render: Render)
    ensures var d, u := FilterDraft(t, parse, render), Redrafted(t, parse, render);
      && d.key == TermKey(t) && DraftValue(d.operator, d.value) == u.value
      && IsQuoting(d.operator) == u.quoted && IsNegating(d.operator) == u.negated
      && u.field == t.field && u.resource == t.resource && u.key == t.key
  {
    QuotedNeverCompares(t, parse);
    StarNeverCompares(t, parse);
    hide BrowserComparison, TermKey, Symbol;
    var v := t.value;
    if |v| >= 2 && v[0] == '*' && v[|v| - 1] == '*' { assert "*" + v[1..|v| - 1] + "*" == v; }
  }

  lemma DraftRoundTrip(t: Term, fields: seq<string>, parse: ParseNumber, render: Render)
    requires AreNames(fields) && WellFormed(t, fields)
    ensures DraftTerm(FilterDraft(t, parse, render), fields) == Redrafted(t, parse, render)
  {
    TermKeyIsTrimmed(t, fields);
    TermKeyReads(t, fields);
    RedraftedParts(t, parse, render);
    hide FilterDraft, Redrafted, Trim, TermKey, AfterFirstDot, AreNames, WellFormed, HasPrefix, DraftValue, IsQuoting,
      IsNegating;
  }

  lemma RedraftedMatches(t: Term, parse: ParseNumber, render: Render, value: Option<Json>, fold: Fold)
    requires IsRender(parse, render)
    ensures TermMatches(Redrafted(t, parse, render), value, parse, fold) <==> TermMatches(t, value, parse, fold)
  {
    var u, comparison := Redrafted(t, parse, render), BrowserComparison(t, parse);
    QuotedNeverCompares(t, parse);
    QuotedNeverCompares(u, parse);
    StarNeverCompares(t, parse);
    if comparison.Some? && !t.negated {
      var s := ComparisonHasSource(t, parse);
      RenderedComparison(u, comparison.value.0, comparison.value.1, parse, render, s);
    } else if comparison.None? && !t.quoted && IndexOf(t.value, '*').None? {
      SplitWithoutStar(t.value);
      assert Parts(u) == Parts(t);
    }
    hide BrowserComparison, IsRender, PartsMatch, Parts, NumberOf;
  }

  /** Editing a filter and saving it unchanged keeps what it matches, on every row. */
  lemma RedraftingKeepsMeaning(
    t: Term, fields: seq<string>, parse: ParseNumber, render: Render, row: LogRow, fold: Fold)
    requires AreNames(fields) && WellFormed(t, fields) && IsRender(parse, render)
    ensures BrowserTerm(DraftTerm(FilterDraft(t, parse, render), fields), row, parse, fold)
      <==> BrowserTerm(t, row, parse, fold)
  {
    DraftRoundTrip(t, fields, parse, render);
    RedraftedParts(t, parse, render);
    RedraftedMatches(t, parse, render, BrowserValue(row, t), fold);
    SameSource(t, Redrafted(t, parse, render), row);
    hide TermMatches, DraftTerm, FilterDraft, Redrafted, BrowserValue, DraftValue, AreNames, WellFormed, IsRender;
  }

  lemma SameSource(t: Term, u: Term, row: LogRow)
    requires u.field == t.field && u.resource == t.resource && u.key == t.key
    ensures BrowserValue(row, u) == BrowserValue(row, t)
  {
  }

  lemma AttributeKeyOfTerm(t: Term, fields: seq<string>)
    requires AreNames(fields) && WellFormed(t, fields)
    ensures TermKey(t) in fields || IsAttributeKey(TermKey(t))
    ensures t.field.Some? <==> TermKey(t) in fields
  {
    TermKeyReads(t, fields);
    if t.field.None? {
      var prefix := if t.resource then "resource." else "attributes.";
      assert TermKey(t) == prefix + t.key;
      assert TermKey(t)[..|prefix|] == prefix && TermKey(t)[|prefix|..] == t.key;
    }
  }

  /** What opening a term for editing puts into the draft. */
  lemma RedraftOperator(t: Term, parse: ParseNumber, render: Render)
    requires IsRender(parse, render) && (!t.quoted ==> t.value != "")
    ensures var d, comparison := FilterDraft(t, parse, render), BrowserComparison(t, parse);
      && (d.operator.Compare? <==> comparison.Some? && !t.negated)
      && (d.operator.Compare? ==> NumberOf(d.value, parse).Some?)
      && (NeedsValue(d.operator) && d.value == "" <==> !t.quoted && t.value == "**")
  {
    QuotedNeverCompares(t, parse);
    var s := ComparisonHasSource(t, parse);
    assert BrowserComparison(t, parse).Some? ==> t.value != "**";
    hide BrowserComparison, TermKey, NumberOf;
    if t.value == "**" { assert t.value[1..1] == ""; }
  }

  /** Opened for editing, a filter validates unless it is `**` or compares a field that is not numeric. */
  lemma RedraftIsAcceptedIff(t: Term, fields: seq<string>, numericFields: seq<string>, parse: ParseNumber,
                             render: Render)
    requires AreNames(fields) && WellFormed(t, fields) && IsRender(parse, render)
    ensures FilterDraftError(FilterDraft(t, parse, render), fields, numericFields, parse).None? <==>
      !(!t.quoted && t.value == "**")
      && !(BrowserComparison(t, parse).Some? && !t.negated && t.field.Some? && t.field.value !in numericFields)
  {
    TermKeyIsTrimmed(t, fields);
    TermKeyReads(t, fields);
    AttributeKeyOfTerm(t, fields);
    RedraftedParts(t, parse, render);
    RedraftOperator(t, parse, render);
    hide FilterDraft, Redrafted, BrowserComparison, Trim, TermKey, AfterFirstDot, AreNames, HasPrefix, IsAttributeKey,
      NumberOf,
      DraftValue, IsQuoting, IsNegating, NeedsValue, IsRender;
  }
}
