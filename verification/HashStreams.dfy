// The byte streams fed to the dimension hashes, and which identities share one.
module HashStreams {
  import opened AttrEncoding
  import opened Order

  type Word32 = x: int | 0 <= x < 0x1_0000_0000

  /** A value as it reaches writeValue; `Word` has no case of its own there. */
  datatype Hashable =
      Null | Integer(i: Int64) | Float(bits: Word) | Boolean(b: bool) | ByteSlice(bytes: Text) | Unsigned64(w: Word32)

  // ---- Decimal numerals ----

  function Decimal(n: nat): (s: string)
    ensures |s| >= 1
  {
    if n < 10 then [('0' as int + n) as char] else Decimal(n / 10) + [('0' as int + n % 10) as char]
  }

  function Numeral(s: string): int {
    if s == "" then 0 else 10 * Numeral(s[..|s| - 1]) + (s[|s| - 1] as int - '0' as int)
  }

  lemma {:induction false} DecimalReads(n: nat)
    ensures Numeral(Decimal(n)) == n
  {
    if n >= 10 {
      DecimalReads(n / 10);
      var s := Decimal(n);
      assert s[..|s| - 1] == Decimal(n / 10);
    } else {
      var s := Decimal(n);
      assert s[..0] == "" && Numeral("") == 0;
    }
  }

  function Power10(n: nat): nat { if n == 0 then 1 else 10 * Power10(n - 1) }

  lemma {:induction false} DecimalLength(n: nat, k: nat)
    requires n < Power10(k) && k >= 1
    ensures |Decimal(n)| <= k
  {
    if n >= 10 {
      assert Power10(k - 1) * 10 == Power10(k);
      DecimalLength(n / 10, k - 1);
    }
  }

  function DecimalText(w: Word32): (t: Text) {
    assert |Decimal(w)| <= 10 by {
      assert Power10(5) == 100_000;
      assert Power10(10) == 10_000_000_000;
      DecimalLength(w, 10);
    }
    Decimal(w)
  }

  // ---- Tagged fields ----

  function StringField(s: Text): string { [TAG_STRING] + Field(s) }

  function BytesField(s: Text): string { [TAG_BYTES] + Field(s) }

  function Bits(b: Hashable): string {
    match b
    case Null => [TAG_NIL]
    case Integer(i) => [TAG_INT64] + Word64(Unsigned(i))
    case Float(bits) => [TAG_FLOAT64] + Word64(bits)
    case Boolean(b) => [TAG_BOOL] + [if b then 1 as char else 0 as char]
    case ByteSlice(bytes) => BytesField(bytes)
    case Unsigned64(w) => StringField(DecimalText(w))
  }

  /** Stands between what is fixed and what follows: equal concatenations have equal parts. */
  lemma FieldsSplit(a: Text, r: string, b: Text, s: string)
    ensures StringField(a) + r == StringField(b) + s <==> a == b && r == s
    ensures BytesField(a) + r == BytesField(b) + s <==> a == b && r == s
    ensures StringField(a) + r != BytesField(b) + s
  {
    FieldReads(a, r);
    FieldReads(b, s);
    hide Field, ReadField;
    assert (StringField(a) + r)[0] == TAG_STRING && (BytesField(b) + s)[0] == TAG_BYTES;
    assert (StringField(a) + r)[1..] == Field(a) + r == (BytesField(a) + r)[1..];
    assert (StringField(b) + s)[1..] == Field(b) + s == (BytesField(b) + s)[1..];
  }

  lemma WordsSplit(a: Word, r: string, b: Word, s: string)
    ensures Word64(a) + r == Word64(b) + s <==> a == b && r == s
  {
    hide Word64, ReadWord;
    WordReads(a, r);
    WordReads(b, s);
  }

  // ---- The hash state ----

  /** An FNV-1a state, as the bytes written to it. */
  class HashWriter {
    var stream: string

    constructor ()
      ensures stream == ""
    {
      stream := "";
    }

    method Write(bytes: string)
      modifies this
      ensures stream == old(stream) + bytes
    {
      stream := stream + bytes;
    }

    method WriteLen(n: Word)
      modifies this
      ensures stream == old(stream) + Word64(n)
    {
      Write(Word64(n));
    }

    method WriteUint64(v: Word)
      modifies this
      ensures stream == old(stream) + ([TAG_UINT64] + Word64(v))
    {
      hide Word64;
      Write([TAG_UINT64]);
      Write(Word64(v));
    }

    method WriteString(s: Text)
      modifies this
      ensures stream == old(stream) + StringField(s)
    {
      hide Word64;
      Write([TAG_STRING]);
      WriteLen(|s|);
      Write(s);
    }

    method WriteBytes(bytes: Text)
      modifies this
      ensures stream == old(stream) + BytesField(bytes)
    {
      hide Word64;
      Write([TAG_BYTES]);
      WriteLen(|bytes|);
      Write(bytes);
    }

    method WriteValue(v: Hashable)
      modifies this
      ensures stream == old(stream) + Bits(v)
    {
      hide Word64, DecimalText, StringField, BytesField, Unsigned;
      match v
      case Null => Write([TAG_NIL]);
      case Integer(i) =>
        Write([TAG_INT64]);
        Write(Word64(Unsigned(i)));
      case Float(bits) =>
        Write([TAG_FLOAT64]);
        Write(Word64(bits));
      case Boolean(b) =>
        Write([TAG_BOOL]);
        if b { Write([1 as char]); } else { Write([0 as char]); }
      case ByteSlice(bytes) => WriteBytes(bytes);
      case Unsigned64(w) => WriteString(DecimalText(w));
    }
  }

  // ---- Series ----

  datatype ScopeIdentity =
      ScopeIdentity(schemaURL: Text, name: Text, version: Text, dropped: Word32, attributesRaw: Text)

  datatype SeriesIdentity = SeriesIdentity(
    resourceHash: Word, scope: ScopeIdentity,
    metricName: Text, metricType: Text, numberKind: Text, unit: Text, temporality: Text, isMonotonic: bool,
    attributesRaw: Text)

  function SeriesTail(i: SeriesIdentity): string {
    StringField(i.metricName) + (StringField(i.metricType) + (StringField(i.numberKind) + (StringField(i.unit)
    + (StringField(i.temporality) + (Bits(Boolean(i.isMonotonic)) + (BytesField(i.attributesRaw) + ""))))))
  }

  /** The dropped-attribute count is written only when it is not zero, and then as text. */
  function DroppedField(dropped: Word32, rest: string): string {
    if dropped != 0 then StringField(DecimalText(dropped)) + rest else rest
  }

  function SeriesStream(i: SeriesIdentity): string {
    [TAG_UINT64] + (Word64(i.resourceHash)
    + (StringField(i.scope.schemaURL) + (StringField(i.scope.name) + (StringField(i.scope.version)
    + DroppedField(i.scope.dropped, BytesField(i.scope.attributesRaw) + SeriesTail(i))))))
  }

  lemma TailDetermines(a: SeriesIdentity, b: SeriesIdentity)
    requires SeriesTail(a) == SeriesTail(b)
    ensures a == b.(resourceHash := a.resourceHash, scope := a.scope)
  {
    hide StringField, BytesField;
    var flag := (i: SeriesIdentity) => Bits(Boolean(i.isMonotonic)) + (BytesField(i.attributesRaw) + "");
    var temporality := (i: SeriesIdentity) => StringField(i.temporality) + flag(i);
    var unit := (i: SeriesIdentity) => StringField(i.unit) + temporality(i);
    var kind := (i: SeriesIdentity) => StringField(i.numberKind) + unit(i);
    var metricType := (i: SeriesIdentity) => StringField(i.metricType) + kind(i);
    FieldsSplit(a.metricName, metricType(a), b.metricName, metricType(b));
    FieldsSplit(a.metricType, kind(a), b.metricType, kind(b));
    FieldsSplit(a.numberKind, unit(a), b.numberKind, unit(b));
    FieldsSplit(a.unit, temporality(a), b.unit, temporality(b));
    FieldsSplit(a.temporality, flag(a), b.temporality, flag(b));
    assert flag(a)[1] == flag(b)[1] && flag(a)[2..] == flag(b)[2..];
    assert flag(a)[2..] == BytesField(a.attributesRaw) + "" && flag(b)[2..] == BytesField(b.attributesRaw) + "";
    FieldsSplit(a.attributesRaw, "", b.attributesRaw, "");
  }

  lemma DroppedDetermines(a: Word32, b: Word32)
    requires DecimalText(a) == DecimalText(b)
    ensures a == b
  {
    DecimalReads(a);
    DecimalReads(b);
  }

  /** The optional count cannot be taken for its neighbours: a byte field always follows it. */
  lemma ScopeEndDetermines(a: Word32, p: Text, r: string, b: Word32, q: Text, s: string)
    requires DroppedField(a, BytesField(p) + r) == DroppedField(b, BytesField(q) + s)
    ensures a == b && p == q && r == s
  {
    hide StringField, BytesField, DecimalText;
    if a != 0 && b != 0 {
      FieldsSplit(DecimalText(a), BytesField(p) + r, DecimalText(b), BytesField(q) + s);
      DroppedDetermines(a, b);
    } else if a != 0 {
      FieldsSplit(DecimalText(a), BytesField(p) + r, q, s);
    } else if b != 0 {
      FieldsSplit(DecimalText(b), BytesField(q) + s, p, r);
    }
    FieldsSplit(p, r, q, s);
  }

  /** The stream under a series key determines every part of the series' identity. */
  lemma SeriesStreamDetermines(a: SeriesIdentity, b: SeriesIdentity)
    ensures SeriesStream(a) == SeriesStream(b) <==> a == b
  {
    hide StringField, BytesField, Word64, SeriesTail, DroppedField;
    if SeriesStream(a) == SeriesStream(b) {
      var dropped := (i: SeriesIdentity) =>
        DroppedField(i.scope.dropped, BytesField(i.scope.attributesRaw) + SeriesTail(i));
      var version := (i: SeriesIdentity) => StringField(i.scope.version) + dropped(i);
      var name := (i: SeriesIdentity) => StringField(i.scope.name) + version(i);
      var schema := (i: SeriesIdentity) => StringField(i.scope.schemaURL) + name(i);
      assert Word64(a.resourceHash) + schema(a) == SeriesStream(a)[1..];
      assert Word64(b.resourceHash) + schema(b) == SeriesStream(b)[1..];
      WordsSplit(a.resourceHash, schema(a), b.resourceHash, schema(b));
      FieldsSplit(a.scope.schemaURL, name(a), b.scope.schemaURL, name(b));
      FieldsSplit(a.scope.name, version(a), b.scope.name, version(b));
      FieldsSplit(a.scope.version, dropped(a), b.scope.version, dropped(b));
      ScopeEndDetermines(a.scope.dropped, a.scope.attributesRaw, SeriesTail(a), b.scope.dropped, b.scope.attributesRaw,
                         SeriesTail(b));
      TailDetermines(a, b);
    }
  }

  lemma Joined(s: string, f: string, rest: string)
    ensures (s + f) + rest == s + (f + rest)
  {
  }

  method WriteScope(h: HashWriter, scope: ScopeIdentity, ghost rest: string)
    modifies h
    ensures h.stream + rest == old(h.stream) + (StringField(scope.schemaURL) + (StringField(scope.name)
      + (StringField(scope.version) + DroppedField(scope.dropped, BytesField(scope.attributesRaw) + rest))))
  {
    hide StringField, BytesField, Word64, DecimalText;
    ghost var start := h.stream;
    ghost var end := DroppedField(scope.dropped, BytesField(scope.attributesRaw) + rest);
    h.WriteString(scope.schemaURL);
    Joined(start, StringField(scope.schemaURL), StringField(scope.name) + (StringField(scope.version) + end));
    ghost var named := h.stream;
    h.WriteString(scope.name);
    Joined(named, StringField(scope.name), StringField(scope.version) + end);
    ghost var versioned := h.stream;
    h.WriteString(scope.version);
    Joined(versioned, StringField(scope.version), end);
    ghost var counted := h.stream;
    if scope.dropped != 0 { h.WriteValue(Unsigned64(scope.dropped)); }
    assert h.stream + (BytesField(scope.attributesRaw) + rest) == counted + end;
    Joined(h.stream, BytesField(scope.attributesRaw), rest);
    h.WriteValue(ByteSlice(scope.attributesRaw));
  }

  method WriteMetric(h: HashWriter, i: SeriesIdentity)
    modifies h
    ensures h.stream == old(h.stream) + SeriesTail(i)
  {
    hide StringField, BytesField, Word64;
    h.WriteString(i.metricName);
    h.WriteString(i.metricType);
    h.WriteString(i.numberKind);
    h.WriteString(i.unit);
    ghost var middle := h.stream;
    h.WriteString(i.temporality);
    h.WriteValue(Boolean(i.isMonotonic));
    h.WriteValue(ByteSlice(i.attributesRaw));
    ghost var end := StringField(i.temporality) + (Bits(Boolean(i.isMonotonic)) + (BytesField(i.attributesRaw) + ""));
    assert h.stream == middle + end;
    hide Bits;
    assert middle == old(h.stream) + StringField(i.metricName) + StringField(i.metricType)
      + StringField(i.numberKind) + StringField(i.unit);
  }

  method HashSeries(i: SeriesIdentity) returns (stream: string)
    ensures stream == SeriesStream(i)
  {
    hide StringField, BytesField, Word64, DroppedField, SeriesTail;
    var h := new HashWriter();
    h.WriteUint64(i.resourceHash);
    WriteScope(h, i.scope, SeriesTail(i));
    WriteMetric(h, i);
    stream := h.stream;
  }

  // ---- Resources ----

  datatype ResourceIdentity = ResourceIdentity(schemaURL: Text, dropped: Word32, attributesRaw: Text)

  function ResourceStream(r: ResourceIdentity): string {
    var rest := DroppedField(r.dropped, BytesField(r.attributesRaw) + "");
    if r.schemaURL != "" then StringField(r.schemaURL) + rest else rest
  }

  /** `a` names as its schema what `b` counts as dropped. */
  predicate IsConfused(a: ResourceIdentity, b: ResourceIdentity) {
    && a.attributesRaw == b.attributesRaw
    && a.dropped == 0 && b.schemaURL == "" && b.dropped != 0 && a.schemaURL == DecimalText(b.dropped)
  }

  lemma ConfusedShare(a: ResourceIdentity, b: ResourceIdentity)
    requires IsConfused(a, b)
    ensures ResourceStream(a) == ResourceStream(b) && a != b
  {
    hide StringField, BytesField;
    assert |a.schemaURL| >= 1;
  }

  lemma ResourceFieldsDetermine(a: ResourceIdentity, b: ResourceIdentity)
    requires ResourceStream(a) == ResourceStream(b) && a.schemaURL != ""
    ensures a == b || IsConfused(a, b)
  {
    hide StringField, BytesField, DecimalText;
    var p, q := BytesField(a.attributesRaw) + "", BytesField(b.attributesRaw) + "";
    if b.schemaURL != "" {
      FieldsSplit(a.schemaURL, DroppedField(a.dropped, p), b.schemaURL, DroppedField(b.dropped, q));
      ScopeEndDetermines(a.dropped, a.attributesRaw, "", b.dropped, b.attributesRaw, "");
    } else if b.dropped == 0 {
      FieldsSplit(a.schemaURL, DroppedField(a.dropped, p), b.attributesRaw, "");
    } else {
      FieldsSplit(a.schemaURL, DroppedField(a.dropped, p), DecimalText(b.dropped), q);
      ScopeEndDetermines(a.dropped, a.attributesRaw, "", 0, b.attributesRaw, "");
    }
  }

  /** Two resources share a stream exactly when they are one, or one's schema URL is the
      numeral of the other's count. */
  lemma ResourcesShareIff(a: ResourceIdentity, b: ResourceIdentity)
    ensures ResourceStream(a) == ResourceStream(b) <==> a == b || IsConfused(a, b) || IsConfused(b, a)
  {
    hide StringField, BytesField, DecimalText;
    if IsConfused(a, b) { ConfusedShare(a, b); }
    if IsConfused(b, a) { ConfusedShare(b, a); }
    hide IsConfused;
    if ResourceStream(a) == ResourceStream(b) {
      if a.schemaURL != "" {
        ResourceFieldsDetermine(a, b);
      } else if b.schemaURL != "" {
        ResourceFieldsDetermine(b, a);
      } else {
        ScopeEndDetermines(a.dropped, a.attributesRaw, "", b.dropped, b.attributesRaw, "");
      }
    }
  }

  /** A resource of schema "3", and one without a schema that dropped three attributes. */
  lemma SchemaThreeCollides()
    ensures var schema, dropped := ResourceIdentity("3", 0, "raw"), ResourceIdentity("", 3, "raw");
      schema != dropped && ResourceStream(schema) == ResourceStream(dropped)
  {
    assert DecimalText(3) == "3";
    hide DecimalText, StringField, BytesField;
    ConfusedShare(ResourceIdentity("3", 0, "raw"), ResourceIdentity("", 3, "raw"));
  }

  method HashResource(r: ResourceIdentity) returns (stream: string)
    ensures stream == ResourceStream(r)
  {
    hide StringField, BytesField, Word64, DecimalText;
    var h := new HashWriter();
    if r.schemaURL != "" { h.WriteString(r.schemaURL); }
    if r.dropped != 0 { h.WriteValue(Unsigned64(r.dropped)); }
    h.WriteValue(ByteSlice(r.attributesRaw));
    stream := h.stream;
  }

  // ---- Histogram layouts ----

  datatype LayoutIdentity =
      LayoutIdentity(kind: Text, bounds: seq<Word>, scale: Option<Int64>, zeroThreshold: Option<Word>)

  function BoundFields(bounds: seq<Word>): string {
    if bounds == [] then "" else Bits(Float(bounds[0])) + BoundFields(bounds[1..])
  }

  function ThresholdBits(zeroThreshold: Option<Word>): string {
    Bits(if zeroThreshold.None? then Null else Float(zeroThreshold.value))
  }

  function OptionalBits(scale: Option<Int64>, zeroThreshold: Option<Word>): string {
    Bits(if scale.None? then Null else Integer(scale.value)) + ThresholdBits(zeroThreshold)
  }

  function LayoutStream(l: LayoutIdentity): string
    requires |l.bounds| < LIMIT
  {
    StringField(l.kind) + (Word64(|l.bounds|) + (BoundFields(l.bounds) + OptionalBits(l.scale, l.zeroThreshold)))
  }

  lemma FloatSplits(a: Word, r: string, b: Word, s: string)
    requires Bits(Float(a)) + r == Bits(Float(b)) + s
    ensures a == b && r == s
  {
    hide Word64;
    assert (Bits(Float(a)) + r)[1..] == Word64(a) + r && (Bits(Float(b)) + s)[1..] == Word64(b) + s;
    WordsSplit(a, r, b, s);
  }

  lemma {:induction false} BoundsDetermine(a: seq<Word>, r: string, b: seq<Word>, s: string)
    requires |a| == |b| && BoundFields(a) + r == BoundFields(b) + s
    ensures a == b && r == s
  {
    hide Bits;
    if a == [] {
      assert BoundFields(a) + r == r && BoundFields(b) + s == s;
    } else {
      var p, q := BoundFields(a[1..]) + r, BoundFields(b[1..]) + s;
      assert BoundFields(a) + r == Bits(Float(a[0])) + p && BoundFields(b) + s == Bits(Float(b[0])) + q;
      FloatSplits(a[0], p, b[0], q);
      BoundsDetermine(a[1..], r, b[1..], s);
      assert a == [a[0]] + a[1..] && b == [b[0]] + b[1..];
    }
  }

  lemma UnsignedIsInjective(a: Int64, b: Int64)
    ensures Unsigned(a) == Unsigned(b) <==> a == b
  {
  }

  lemma IntegerStarts(a: Option<Int64>, r: string)
    ensures var x := Bits(if a.None? then Null else Integer(a.value)) + r;
      && x[0] == (if a.None? then TAG_NIL else TAG_INT64)
      && x[1..] == if a.None? then r else Word64(Unsigned(a.value)) + r
  {
    hide Word64, Unsigned, DecimalText;
  }

  lemma IntegerSplits(a: Option<Int64>, r: string, b: Option<Int64>, s: string)
    requires Bits(if a.None? then Null else Integer(a.value)) + r
      == Bits(if b.None? then Null else Integer(b.value)) + s
    ensures a == b && r == s
  {
    IntegerStarts(a, r);
    IntegerStarts(b, s);
    hide Word64, Unsigned, Bits;
    if a.Some? {
      WordsSplit(Unsigned(a.value), r, Unsigned(b.value), s);
      UnsignedIsInjective(a.value, b.value);
    }
  }

  lemma OptionalFloatSplits(a: Option<Word>, b: Option<Word>)
    requires Bits(if a.None? then Null else Float(a.value)) == Bits(if b.None? then Null else Float(b.value))
    ensures a == b
  {
    hide Word64;
    var x, y := Bits(if a.None? then Null else Float(a.value)), Bits(if b.None? then Null else Float(b.value));
    assert x[0] == (if a.None? then TAG_NIL else TAG_FLOAT64) && y[0] == (if b.None? then TAG_NIL else TAG_FLOAT64);
    if a.Some? {
      assert x[1..] == Word64(a.value) + "" && y[1..] == Word64(b.value) + "";
      WordsSplit(a.value, "", b.value, "");
    }
  }

  /** The stream under a layout key determines the layout: kind, bounds, and which optional parts are present. */
  lemma LayoutStreamDetermines(a: LayoutIdentity, b: LayoutIdentity)
    requires |a.bounds| < LIMIT && |b.bounds| < LIMIT
    ensures LayoutStream(a) == LayoutStream(b) <==> a == b
  {
    hide StringField, Word64, BoundFields, Bits;
    if LayoutStream(a) == LayoutStream(b) {
      var p, q := OptionalBits(a.scale, a.zeroThreshold), OptionalBits(b.scale, b.zeroThreshold);
      FieldsSplit(a.kind, Word64(|a.bounds|) + (BoundFields(a.bounds) + p), b.kind,
                  Word64(|b.bounds|) + (BoundFields(b.bounds) + q));
      WordsSplit(|a.bounds|, BoundFields(a.bounds) + p, |b.bounds|, BoundFields(b.bounds) + q);
      BoundsDetermine(a.bounds, p, b.bounds, q);
      IntegerSplits(a.scale, ThresholdBits(a.zeroThreshold), b.scale, ThresholdBits(b.zeroThreshold));
      OptionalFloatSplits(a.zeroThreshold, b.zeroThreshold);
    }
  }

  method HistogramLayoutHash(l: LayoutIdentity) returns (stream: string)
    requires |l.bounds| < LIMIT
    ensures stream == LayoutStream(l)
  {
    hide StringField, Word64, Bits;
    var h := new HashWriter();
    h.WriteString(l.kind);
    h.WriteLen(|l.bounds|);
    ghost var start := h.stream;
    for i := 0 to |l.bounds|
      invariant h.stream + BoundFields(l.bounds[i..]) == start + BoundFields(l.bounds)
    {
      ghost var before := h.stream;
      assert l.bounds[i..][0] == l.bounds[i] && l.bounds[i..][1..] == l.bounds[i + 1..];
      h.WriteValue(Float(l.bounds[i]));
      assert before + (Bits(Float(l.bounds[i])) + BoundFields(l.bounds[i + 1..]))
        == h.stream + BoundFields(l.bounds[i + 1..]);
    }
    assert l.bounds[|l.bounds|..] == [];
    ghost var middle := h.stream;
    assert middle + "" == middle && start + BoundFields(l.bounds) == middle;
    if l.scale.None? { h.WriteValue(Null); } else { h.WriteValue(Integer(l.scale.value)); }
    if l.zeroThreshold.None? { h.WriteValue(Null); } else { h.WriteValue(Float(l.zeroThreshold.value)); }
    stream := h.stream;
    assert stream == middle + OptionalBits(l.scale, l.zeroThreshold);
    assert middle == StringField(l.kind) + Word64(|l.bounds|) + BoundFields(l.bounds);
  }

  // ---- Reading a stream back, value by value ----

  /** A tagged value of a stream. */
  datatype Part = Missing | Txt(text: Text) | Whole(int64: Int64) | Real(bits: Word) | Flag(flag: bool)
                | Bin(bytes: Text) | Wide(word: Word)

  /** Adds a part in front of what follows it. */
  function Followed(part: Part, rest: Option<seq<Part>>): Option<seq<Part>> {
    if rest.None? then None else Some([part] + rest.value)
  }

  /** The values of a stream in order, each read by its tag. */
  function ReadParts(s: string): Option<seq<Part>>
    decreases |s|
  {
    if s == "" then Some([])
    else
      var tag, body := s[0] as int, s[1..];
      if tag == 0 then Followed(Missing, ReadParts(body))
      else if tag == 4 then if body == "" then None else Followed(Flag(body[0] == 1 as char), ReadParts(body[1..]))
      else if tag == 1 || tag == 5 then
        var f := ReadField(body);
        if f.None? then None
        else Followed(if tag == 1 then Txt(f.value.0) else Bin(f.value.0), ReadParts(f.value.1))
      else if tag == 2 || tag == 3 || tag == 8 then
        var w := ReadWord(body);
        if w.None? || w.value.0 >= WORD_LIMIT then None
        else
          var word: Word := w.value.0;
          Followed(if tag == 2 then Whole(Signed(word)) else if tag == 3 then Real(word) else Wide(word),
                   ReadParts(w.value.1))
      else None
  }

  lemma TextReads(a: Text, r: string)
    ensures ReadParts(StringField(a) + r) == Followed(Txt(a), ReadParts(r))
    ensures ReadParts(BytesField(a) + r) == Followed(Bin(a), ReadParts(r))
  {
    FieldReads(a, r);
    hide Field, ReadField;
    assert (StringField(a) + r)[1..] == Field(a) + r == (BytesField(a) + r)[1..];
  }

  lemma WordPartReads(w: Word, r: string)
    ensures ReadParts([TAG_UINT64] + (Word64(w) + r)) == Followed(Wide(w), ReadParts(r))
    ensures ReadParts([TAG_FLOAT64] + (Word64(w) + r)) == Followed(Real(w), ReadParts(r))
    ensures ReadParts([TAG_INT64] + (Word64(w) + r)) == Followed(Whole(Signed(w)), ReadParts(r))
  {
    WordReads(w, r);
    hide Word64, ReadWord;
    assert ([TAG_UINT64] + (Word64(w) + r))[1..] == Word64(w) + r == ([TAG_FLOAT64] + (Word64(w) + r))[1..];
    assert ([TAG_INT64] + (Word64(w) + r))[1..] == Word64(w) + r;
  }

  lemma FlagReads(b: bool, r: string)
    ensures ReadParts(Bits(Boolean(b)) + r) == Followed(Flag(b), ReadParts(r))
  {
    var s := Bits(Boolean(b)) + r;
    assert s[1..] == [if b then 1 as char else 0 as char] + r && s[1..][1..] == r;
  }

  lemma NothingReads()
    ensures ReadParts("") == Some([])
  {
  }

  lemma DroppedReads(dropped: Word32, rest: string)
    ensures ReadParts(DroppedField(dropped, rest))
      == if dropped == 0 then ReadParts(rest) else Followed(Txt(DecimalText(dropped)), ReadParts(rest))
  {
    TextReads(DecimalText(dropped), rest);
  }

  /** The count of dropped attributes, as a numeral, unless there are none. */
  function DroppedParts(dropped: Word32): seq<Part> { if dropped == 0 then [] else [Txt(DecimalText(dropped))] }

  lemma TailReads(i: SeriesIdentity)
    ensures ReadParts(SeriesTail(i)) == Some([
      Txt(i.metricName), Txt(i.metricType), Txt(i.numberKind), Txt(i.unit), Txt(i.temporality), Flag(i.isMonotonic),
      Bin(i.attributesRaw)])
  {
    hide StringField, BytesField, Bits, ReadParts;
    NothingReads();
    TextReads(i.attributesRaw, "");
    var flag := Bits(Boolean(i.isMonotonic)) + (BytesField(i.attributesRaw) + "");
    FlagReads(i.isMonotonic, BytesField(i.attributesRaw) + "");
    TextReads(i.temporality, flag);
    TextReads(i.unit, StringField(i.temporality) + flag);
    TextReads(i.numberKind, StringField(i.unit) + (StringField(i.temporality) + flag));
    TextReads(i.metricType, StringField(i.numberKind) + (StringField(i.unit) + (StringField(i.temporality) + flag)));
    TextReads(i.metricName, StringField(i.metricType) + (StringField(i.numberKind) + (StringField(i.unit)
      + (StringField(i.temporality) + flag))));
    assert [Txt(i.metricName)] + ([Txt(i.metricType)] + ([Txt(i.numberKind)] + ([Txt(i.unit)] + ([Txt(i.temporality)]
      + ([Flag(i.isMonotonic)] + ([Bin(i.attributesRaw)] + [])))))) == [
      Txt(i.metricName), Txt(i.metricType), Txt(i.numberKind), Txt(i.unit), Txt(i.temporality), Flag(i.isMonotonic),
      Bin(i.attributesRaw)];
  }

  lemma ScopeEndReads(i: SeriesIdentity)
    ensures ReadParts(DroppedField(i.scope.dropped, BytesField(i.scope.attributesRaw) + SeriesTail(i))) == Some(
      DroppedParts(i.scope.dropped)
      + [Bin(i.scope.attributesRaw), Txt(i.metricName), Txt(i.metricType), Txt(i.numberKind), Txt(i.unit),
         Txt(i.temporality), Flag(i.isMonotonic), Bin(i.attributesRaw)])
  {
    hide StringField, BytesField, ReadParts, SeriesTail, DroppedField, DecimalText;
    TailReads(i);
    var scope := BytesField(i.scope.attributesRaw) + SeriesTail(i);
    TextReads(i.scope.attributesRaw, SeriesTail(i));
    DroppedReads(i.scope.dropped, scope);
    var tail := [Txt(i.metricName), Txt(i.metricType), Txt(i.numberKind), Txt(i.unit), Txt(i.temporality),
      Flag(i.isMonotonic), Bin(i.attributesRaw)];
    var ending := [Bin(i.scope.attributesRaw), Txt(i.metricName), Txt(i.metricType), Txt(i.numberKind), Txt(i.unit),
      Txt(i.temporality), Flag(i.isMonotonic), Bin(i.attributesRaw)];
    assert [Bin(i.scope.attributesRaw)] + tail == ending;
    assert i.scope.dropped == 0 ==> DroppedParts(i.scope.dropped) + ending == ending;
  }

  /** The values under a series key, in the order in which keys already stored were made. */
  lemma SeriesStreamReads(i: SeriesIdentity)
    ensures ReadParts(SeriesStream(i)) == Some(
      [Wide(i.resourceHash), Txt(i.scope.schemaURL), Txt(i.scope.name), Txt(i.scope.version)]
      + DroppedParts(i.scope.dropped)
      + [Bin(i.scope.attributesRaw), Txt(i.metricName), Txt(i.metricType), Txt(i.numberKind), Txt(i.unit),
         Txt(i.temporality), Flag(i.isMonotonic), Bin(i.attributesRaw)])
  {
    hide StringField, BytesField, ReadParts, SeriesTail, DroppedField, DecimalText, Word64;
    ScopeEndReads(i);
    var dropped := DroppedField(i.scope.dropped, BytesField(i.scope.attributesRaw) + SeriesTail(i));
    TextReads(i.scope.version, dropped);
    TextReads(i.scope.name, StringField(i.scope.version) + dropped);
    TextReads(i.scope.schemaURL, StringField(i.scope.name) + (StringField(i.scope.version) + dropped));
    WordPartReads(i.resourceHash, StringField(i.scope.schemaURL) + (StringField(i.scope.name)
      + (StringField(i.scope.version) + dropped)));
    var ending := [Bin(i.scope.attributesRaw), Txt(i.metricName), Txt(i.metricType), Txt(i.numberKind), Txt(i.unit),
      Txt(i.temporality), Flag(i.isMonotonic), Bin(i.attributesRaw)];
    var counted := DroppedParts(i.scope.dropped) + ending;
    var start := [Wide(i.resourceHash), Txt(i.scope.schemaURL), Txt(i.scope.name), Txt(i.scope.version)];
    assert [Wide(i.resourceHash)] + ([Txt(i.scope.schemaURL)] + ([Txt(i.scope.name)]
      + ([Txt(i.scope.version)] + counted))) == start + counted;
    assert start + DroppedParts(i.scope.dropped) + ending == start + counted;
  }

  /** And those under a resource hash. */
  lemma ResourceStreamReads(r: ResourceIdentity)
    ensures ReadParts(ResourceStream(r)) == Some(
      (if r.schemaURL == "" then [] else [Txt(r.schemaURL)]) + DroppedParts(r.dropped) + [Bin(r.attributesRaw)])
  {
    hide StringField, BytesField, ReadParts, DroppedField, DecimalText;
    NothingReads();
    TextReads(r.attributesRaw, "");
    DroppedReads(r.dropped, BytesField(r.attributesRaw) + "");
    TextReads(r.schemaURL, DroppedField(r.dropped, BytesField(r.attributesRaw) + ""));
    var ending := [Bin(r.attributesRaw)];
    assert ending + [] == ending;
    var counted := DroppedParts(r.dropped) + ending;
    assert r.dropped == 0 ==> counted == ending;
    var none: seq<Part> := [];
    assert none + DroppedParts(r.dropped) + ending == counted;
    assert [Txt(r.schemaURL)] + counted == [Txt(r.schemaURL)] + DroppedParts(r.dropped) + ending;
  }

  function BoundParts(bounds: seq<Word>): (parts: seq<Part>)
    ensures |parts| == |bounds| && forall i :: 0 <= i < |bounds| ==> parts[i] == Real(bounds[i])
  {
    seq(|bounds|, i requires 0 <= i < |bounds| => Real(bounds[i]))
  }

  lemma {:induction false} BoundsRead(bounds: seq<Word>, r: string, rest: seq<Part>)
    requires ReadParts(r) == Some(rest)
    ensures ReadParts(BoundFields(bounds) + r) == Some(BoundParts(bounds) + rest)
  {
    hide ReadParts, Word64, BoundParts;
    if bounds == [] {
      assert BoundFields(bounds) + r == r && BoundParts(bounds) + rest == rest;
    } else {
      BoundsRead(bounds[1..], r, rest);
      WordPartReads(bounds[0], BoundFields(bounds[1..]) + r);
      FirstBound(bounds, r, rest);
    }
  }

  lemma FirstBound(bounds: seq<Word>, r: string, rest: seq<Part>)
    requires bounds != []
    ensures BoundFields(bounds) + r == [TAG_FLOAT64] + (Word64(bounds[0]) + (BoundFields(bounds[1..]) + r))
    ensures BoundParts(bounds) + rest == [Real(bounds[0])] + (BoundParts(bounds[1..]) + rest)
  {
    hide Word64;
  }

  lemma OptionalReads(scale: Option<Int64>, zeroThreshold: Option<Word>)
    ensures ReadParts(OptionalBits(scale, zeroThreshold)) == Some([
      if scale.None? then Missing else Whole(scale.value),
      if zeroThreshold.None? then Missing else Real(zeroThreshold.value)])
  {
    var threshold := ThresholdBits(zeroThreshold);
    NothingReads();
    var last := if zeroThreshold.None? then Missing else Real(zeroThreshold.value);
    if zeroThreshold.Some? {
      WordPartReads(zeroThreshold.value, "");
      assert Word64(zeroThreshold.value) + "" == Word64(zeroThreshold.value);
    } else {
      assert threshold[1..] == "";
    }
    assert [last] + [] == [last];
    assert ReadParts(threshold) == Some([last]);
    ScaleReads(scale, threshold, [last]);
    var first := if scale.None? then Missing else Whole(scale.value);
    assert [first] + [last] == [first, last];
  }

  lemma ScaleReads(scale: Option<Int64>, r: string, rest: seq<Part>)
    requires ReadParts(r) == Some(rest)
    ensures ReadParts(Bits(if scale.None? then Null else Integer(scale.value)) + r)
      == Some([if scale.None? then Missing else Whole(scale.value)] + rest)
  {
    hide ReadParts, Word64;
    if scale.Some? {
      WordPartReads(Unsigned(scale.value), r);
      assert Bits(Integer(scale.value)) + r == [TAG_INT64] + (Word64(Unsigned(scale.value)) + r);
    } else {
      NilReads(r);
    }
  }

  lemma NilReads(r: string)
    ensures ReadParts([TAG_NIL] + r) == Followed(Missing, ReadParts(r))
  {
    assert ([TAG_NIL] + r)[1..] == r;
  }

  /** Under a layout hash stand the kind, the number of bounds, and then the bounds, the scale and the threshold. */
  lemma LayoutStreamReads(l: LayoutIdentity) returns (bounds: string, rest: string)
    requires |l.bounds| < LIMIT
    ensures LayoutStream(l) != "" && LayoutStream(l)[0] as int == 1
    ensures ReadField(LayoutStream(l)[1..]) == Some((l.kind, bounds))
    ensures ReadWord(bounds) == Some((|l.bounds|, rest))
    ensures ReadParts(rest) == Some(BoundParts(l.bounds) + [
      if l.scale.None? then Missing else Whole(l.scale.value),
      if l.zeroThreshold.None? then Missing else Real(l.zeroThreshold.value)])
  {
    hide ReadParts, ReadField, ReadWord, Word64, Field, BoundFields, OptionalBits;
    OptionalReads(l.scale, l.zeroThreshold);
    rest := BoundFields(l.bounds) + OptionalBits(l.scale, l.zeroThreshold);
    bounds := Word64(|l.bounds|) + rest;
    BoundsRead(l.bounds, OptionalBits(l.scale, l.zeroThreshold), [
      if l.scale.None? then Missing else Whole(l.scale.value),
      if l.zeroThreshold.None? then Missing else Real(l.zeroThreshold.value)]);
    WordReads(|l.bounds|, rest);
    FieldReads(l.kind, bounds);
    assert LayoutStream(l)[1..] == Field(l.kind) + bounds;
  }
}
