// The canonical binary encoding of attributes: tagged, length-prefixed and sorted by key, with a
// reader that inverts it.
module AttrEncoding {
  import opened Order

  // A Go int holds a length; its 64 bits are written in two's complement.
  const LIMIT: int := 0x8000_0000_0000_0000
  const WORD_LIMIT: int := 0x1_0000_0000_0000_0000

  type Text = s: string | |s| < LIMIT witness ""
  type Int64 = x: int | -LIMIT <= x < LIMIT
  type Word = x: int | 0 <= x < WORD_LIMIT

  /** A pcommon.Value; a map keeps its entries in insertion order and may repeat a key. */
  datatype Value =
    | Nil
    | Str(text: Text)
    | Int(int64: Int64)
    | Double(bits: Word)
    | Bool(flag: bool)
    | Raw(bytes: Text)
    | Slice(items: seq<Value>)
    | Map(entries: seq<Entry>)
  datatype Entry = Entry(key: Text, value: Value)

  /** Every slice and map in a value has a length a Go int can hold. */
  ghost predicate Fits(v: Value) {
    match v
    case Slice(items) => |items| < LIMIT && forall i :: 0 <= i < |items| ==> Fits(items[i])
    case Map(entries) => FitsMap(entries)
    case _ => true
  }

  ghost predicate FitsMap(entries: seq<Entry>) {
    |entries| < LIMIT && forall i :: 0 <= i < |entries| ==> Fits(entries[i].value)
  }

  const TAG_NIL: char := 0 as char
  const TAG_STRING: char := 1 as char
  const TAG_INT64: char := 2 as char
  const TAG_FLOAT64: char := 3 as char
  const TAG_BOOL: char := 4 as char
  const TAG_BYTES: char := 5 as char
  const TAG_SLICE: char := 6 as char
  const TAG_MAP: char := 7 as char
  const TAG_UINT64: char := 8 as char

  // ---- Little-endian words ----

  function Capacity(n: nat): (c: int)
    ensures c >= 1
  {
    if n == 0 then 1 else 256 * Capacity(n - 1)
  }

  function LittleEndian(v: nat, n: nat): (s: string)
    ensures |s| == n
  {
    if n == 0 then "" else [(v % 256) as char] + LittleEndian(v / 256, n - 1)
  }

  lemma LeastFirst(v: nat, n: nat)
    requires n > 0
    ensures LittleEndian(v, n) == [(v % 256) as char] + LittleEndian(v / 256, n - 1)
  {
  }

  function FromLittleEndian(s: string): nat {
    if s == "" then 0 else s[0] as int + 256 * FromLittleEndian(s[1..])
  }

  lemma {:induction false} LittleEndianReads(v: nat, n: nat)
    requires v < Capacity(n)
    ensures FromLittleEndian(LittleEndian(v, n)) == v
  {
    if n > 0 {
      LittleEndianReads(v / 256, n - 1);
      var s := LittleEndian(v, n);
      assert s[1..] == LittleEndian(v / 256, n - 1);
    }
  }

  function Word64(v: Word): (s: string)
    ensures |s| == 8
  {
    LittleEndian(v, 8)
  }

  function Unsigned(i: Int64): Word { if i < 0 then i + WORD_LIMIT else i }

  function Signed(w: Word): Int64 { if w >= LIMIT then w - WORD_LIMIT else w }

  lemma CapacityOf8()
    ensures Capacity(8) == WORD_LIMIT
  {
    assert Capacity(1) == 256;
    assert Capacity(2) == 0x1_0000;
    assert Capacity(4) == 0x1_0000_0000;
    assert Capacity(6) == 0x1_0000_0000_0000;
  }

  function ReadWord(s: string): Option<(nat, string)> {
    if |s| < 8 then None else Some((FromLittleEndian(s[..8]), s[8..]))
  }

  lemma WordReads(v: Word, r: string)
    ensures ReadWord(Word64(v) + r) == Some((v, r))
  {
    hide Capacity, LittleEndian, FromLittleEndian;
    CapacityOf8();
    LittleEndianReads(v, 8);
    assert (Word64(v) + r)[..8] == Word64(v) && (Word64(v) + r)[8..] == r;
  }

  function Field(s: Text): string { Word64(|s|) + s }

  function ReadField(s: string): Option<(Text, string)> {
    var n := ReadWord(s);
    if n.None? || n.value.0 >= LIMIT || |n.value.1| < n.value.0 then None
    else Some((n.value.1[..n.value.0], n.value.1[n.value.0..]))
  }

  lemma FieldReads(t: Text, r: string)
    ensures ReadField(Field(t) + r) == Some((t, r))
  {
    hide Word64, ReadWord;
    WordReads(|t|, t + r);
    assert Field(t) + r == Word64(|t|) + (t + r);
    assert (t + r)[..|t|] == t && (t + r)[|t|..] == r;
  }

  // ---- Sorted keys ----

  function Insert(k: Text, sorted: seq<Text>): (r: seq<Text>)
    ensures |r| == |sorted| + 1
  {
    if sorted == [] || LessEq(k, sorted[0]) then [k] + sorted else [sorted[0]] + Insert(k, sorted[1..])
  }

  /** sort.Strings. */
  function Sort(keys: seq<Text>): (r: seq<Text>)
    ensures |r| == |keys|
  {
    if keys == [] then [] else Insert(keys[0], Sort(keys[1..]))
  }

  ghost predicate IsSorted(s: seq<Text>) {
    forall i, j :: 0 <= i < j < |s| ==> LessEq(s[i], s[j])
  }

  lemma {:induction false} InsertKeeps(k: Text, sorted: seq<Text>)
    requires IsSorted(sorted)
    ensures IsSorted(Insert(k, sorted)) && multiset(Insert(k, sorted)) == multiset{k} + multiset(sorted)
  {
    if sorted == [] {
    } else if LessEq(k, sorted[0]) {
      forall j | 0 <= j < |sorted| ensures LessEq(k, sorted[j]) {
        if j > 0 && k != sorted[0] && sorted[0] != sorted[j] { LessIsTransitive(k, sorted[0], sorted[j]); }
      }
    } else {
      LessIsStrict(k, sorted[0]);
      InsertKeeps(k, sorted[1..]);
      var rest := Insert(k, sorted[1..]);
      assert sorted == [sorted[0]] + sorted[1..];
      forall j | 0 <= j < |rest| ensures LessEq(sorted[0], rest[j]) {
        assert rest[j] in multiset(rest);
        if rest[j] != k {
          assert rest[j] in sorted[1..];
        }
      }
    }
  }

  lemma {:induction false} SortKeeps(keys: seq<Text>)
    ensures IsSorted(Sort(keys)) && multiset(Sort(keys)) == multiset(keys)
  {
    if keys != [] {
      SortKeeps(keys[1..]);
      InsertKeeps(keys[0], Sort(keys[1..]));
      assert keys == [keys[0]] + keys[1..];
    }
  }

  lemma LeastIsFirst(a: seq<Text>, k: Text)
    requires IsSorted(a) && k in a
    ensures LessEq(a[0], k)
  {
    var i :| 0 <= i < |a| && a[i] == k;
    if i > 0 { assert LessEq(a[0], a[i]); }
  }

  lemma TailCounts(a: seq<Text>)
    requires a != []
    ensures multiset(a[1..]) == multiset(a) - multiset{a[0]} && a[0] in a
  {
    assert a == [a[0]] + a[1..];
  }

  lemma SortedTail(a: seq<Text>)
    requires IsSorted(a) && a != []
    ensures IsSorted(a[1..])
  {
    hide LessEq;
  }

  /** A multiset of keys has one sorted order. */
  lemma {:induction false} SortedIsUnique(a: seq<Text>, b: seq<Text>)
    requires IsSorted(a) && IsSorted(b) && multiset(a) == multiset(b)
    ensures a == b
  {
    assert |multiset(a)| == |a| && |multiset(b)| == |b|;
    if a != [] {
      TailCounts(a);
      TailCounts(b);
      assert a[0] in multiset(b) && b[0] in multiset(a);
      LeastIsFirst(a, b[0]);
      LeastIsFirst(b, a[0]);
      LessIsStrict(a[0], b[0]);
      hide LessEq;
      SortedTail(a);
      SortedTail(b);
      hide IsSorted;
      SortedIsUnique(a[1..], b[1..]);
      assert a == [a[0]] + a[1..] && b == [b[0]] + b[1..];
    }
  }

  // ---- Encoding ----

  function Keys(entries: seq<Entry>): (keys: seq<Text>)
    ensures |keys| == |entries|
  {
    seq(|entries|, i requires 0 <= i < |entries| => entries[i].key)
  }

  ghost predicate HasKey(entries: seq<Entry>, key: Text) {
    exists i :: 0 <= i < |entries| && entries[i].key == key
  }

  ghost predicate HaveKeys(entries: seq<Entry>, keys: seq<Text>) {
    forall k :: k in keys ==> HasKey(entries, k)
  }

  /** Where pcommon.Map.Get finds a key: the first entry carrying it. */
  function First(entries: seq<Entry>, key: Text): (i: nat)
    requires HasKey(entries, key)
    ensures i < |entries| && entries[i].key == key
    ensures forall j :: 0 <= j < i ==> entries[j].key != key
  {
    if entries[0].key == key then 0
    else
      assert HasKey(entries[1..], key) by {
        var i :| 0 <= i < |entries| && entries[i].key == key;
        assert entries[1..][i - 1].key == key;
      }
      1 + First(entries[1..], key)
  }

  function Get(entries: seq<Entry>, key: Text): Value
    requires HasKey(entries, key)
  {
    entries[First(entries, key)].value
  }

  lemma SortedKeysExist(entries: seq<Entry>)
    ensures HaveKeys(entries, Sort(Keys(entries)))
  {
    SortKeeps(Keys(entries));
    forall k | k in Sort(Keys(entries)) ensures HasKey(entries, k) {
      assert k in multiset(Keys(entries));
      var i :| 0 <= i < |entries| && Keys(entries)[i] == k;
      assert entries[i].key == k;
    }
  }

  function Encode(v: Value): string
    requires Fits(v)
    decreases v, 0
  {
    match v
    case Nil => [TAG_NIL]
    case Str(text) => [TAG_STRING] + Field(text)
    case Int(i) => [TAG_INT64] + Word64(Unsigned(i))
    case Double(bits) => [TAG_FLOAT64] + Word64(bits)
    case Bool(b) => [TAG_BOOL] + [if b then 1 as char else 0 as char]
    case Raw(bytes) => [TAG_BYTES] + Field(bytes)
    case Slice(items) => [TAG_SLICE] + Word64(|items|) + EncodeItems(items)
    case Map(entries) => [TAG_MAP] + EncodeMap(entries)
  }

  function EncodeItems(items: seq<Value>): string
    requires forall i :: 0 <= i < |items| ==> Fits(items[i])
    decreases items, |items|
  {
    if items == [] then "" else Encode(items[0]) + EncodeItems(items[1..])
  }

  function EncodeMap(entries: seq<Entry>): string
    requires FitsMap(entries)
    decreases entries, |entries| + 1
  {
    SortedKeysExist(entries);
    Word64(|entries|) + EncodeKeys(Sort(Keys(entries)), entries)
  }

  function EncodeKeys(keys: seq<Text>, entries: seq<Entry>): string
    requires FitsMap(entries) && HaveKeys(entries, keys) && |keys| <= |entries|
    decreases entries, |keys|
  {
    if keys == [] then ""
    else Field(keys[0]) + Encode(Get(entries, keys[0])) + EncodeKeys(keys[1..], entries)
  }

  // ---- What is written ----

  /** The value as written: maps sorted by key, each entry carrying the value Get finds. */
  function Canon(v: Value): (c: Value)
    decreases v, 0
  {
    match v
    case Slice(items) => Slice(CanonItems(items))
    case Map(entries) => Map(CanonMap(entries))
    case _ => v
  }

  function CanonItems(items: seq<Value>): (c: seq<Value>)
    ensures |c| == |items|
    decreases items, |items|
  {
    if items == [] then [] else [Canon(items[0])] + CanonItems(items[1..])
  }

  function CanonMap(entries: seq<Entry>): (c: seq<Entry>)
    ensures |c| == |entries|
    decreases entries, |entries| + 1
  {
    SortedKeysExist(entries);
    CanonKeys(Sort(Keys(entries)), entries)
  }

  function CanonKeys(keys: seq<Text>, entries: seq<Entry>): (c: seq<Entry>)
    requires HaveKeys(entries, keys) && |keys| <= |entries|
    ensures |c| == |keys|
    decreases entries, |keys|
  {
    if keys == [] then []
    else [Entry(keys[0], Canon(Get(entries, keys[0])))] + CanonKeys(keys[1..], entries)
  }

  // ---- Reading back ----

  /** Reads one value off the front; `None` on bytes no encoding starts with. */
  function Decode(s: string): (d: Option<(Value, string)>)
    ensures d.Some? ==> |d.value.1| < |s|
    decreases |s|, 0, 0
  {
    if s == "" then None
    else
      var tag, body := s[0], s[1..];
      if tag == TAG_NIL then Some((Nil, body))
      else if tag == TAG_STRING then
        var f := ReadField(body);
        if f.None? then None else Some((Str(f.value.0), f.value.1))
      else if tag == TAG_INT64 then
        var w := ReadWord(body);
        if w.None? || w.value.0 >= WORD_LIMIT then None else Some((Int(Signed(w.value.0)), w.value.1))
      else if tag == TAG_FLOAT64 then
        var w := ReadWord(body);
        if w.None? || w.value.0 >= WORD_LIMIT then None else Some((Double(w.value.0), w.value.1))
      else if tag == TAG_BOOL then
        if body == "" then None else Some((Bool(body[0] == 1 as char), body[1..]))
      else if tag == TAG_BYTES then
        var f := ReadField(body);
        if f.None? then None else Some((Raw(f.value.0), f.value.1))
      else if tag == TAG_SLICE then
        var n := ReadWord(body);
        if n.None? then None
        else
          var items := DecodeItems(n.value.0, n.value.1);
          if items.None? then None else Some((Slice(items.value.0), items.value.1))
      else if tag == TAG_MAP then
        var n := ReadWord(body);
        if n.None? then None
        else
          var entries := DecodeEntries(n.value.0, n.value.1);
          if entries.None? then None else Some((Map(entries.value.0), entries.value.1))
      else None
  }

  function DecodeItems(n: nat, s: string): (d: Option<(seq<Value>, string)>)
    ensures d.Some? ==> |d.value.1| <= |s|
    decreases |s|, 1, n
  {
    if n == 0 then Some(([], s))
    else
      var first := Decode(s);
      if first.None? then None
      else
        var rest := DecodeItems(n - 1, first.value.1);
        if rest.None? then None else Some(([first.value.0] + rest.value.0, rest.value.1))
  }

  function DecodeEntries(n: nat, s: string): (d: Option<(seq<Entry>, string)>)
    ensures d.Some? ==> |d.value.1| <= |s|
    decreases |s|, 1, n
  {
    if n == 0 then Some(([], s))
    else
      var key := ReadField(s);
      if key.None? then None
      else
        var value := Decode(key.value.1);
        if value.None? then None
        else
          var rest := DecodeEntries(n - 1, value.value.1);
          if rest.None? then None
          else Some(([Entry(key.value.0, value.value.0)] + rest.value.0, rest.value.1))
  }

  lemma ScalarRoundTrip(v: Value, r: string)
    requires !v.Slice? && !v.Map?
    ensures Decode(Encode(v) + r) == Some((v, r))
  {
    hide Word64, ReadWord, Field, ReadField;
    var s := Encode(v) + r;
    match v
    case Nil => assert s[1..] == r;
    case Str(text) => assert s[1..] == Field(text) + r; FieldReads(text, r);
    case Int(i) => assert s[1..] == Word64(Unsigned(i)) + r; WordReads(Unsigned(i), r);
    case Double(bits) => assert s[1..] == Word64(bits) + r; WordReads(bits, r);
    case Bool(b) => assert s[1..] == [if b then 1 as char else 0 as char] + r; assert s[1..][1..] == r;
    case Raw(bytes) => assert s[1..] == Field(bytes) + r; FieldReads(bytes, r);
    case _ =>
  }

  /** Reading what was written gives the canonical value back and leaves exactly what followed it. */
  lemma {:induction false} RoundTrip(v: Value, r: string)
    requires Fits(v)
    ensures Decode(Encode(v) + r) == Some((Canon(v), r))
    decreases v, 0
  {
    hide Word64, ReadWord, Field, ReadField, Sort, Keys, Encode, Decode;
    match v
    case Slice(items) => SliceRoundTrip(items, r);
    case Map(entries) => MapRoundTrip(entries, r);
    case _ => ScalarRoundTrip(v, r);
  }

  lemma {:induction false} SliceRoundTrip(items: seq<Value>, r: string)
    requires Fits(Slice(items))
    ensures Decode(Encode(Slice(items)) + r) == Some((Canon(Slice(items)), r))
    decreases items, |items| + 1
  {
    hide Word64, ReadWord, Field, ReadField;
    var s := Encode(Slice(items)) + r;
    var body := EncodeItems(items) + r;
    assert s == [TAG_SLICE] + (Word64(|items|) + body);
    WordReads(|items|, body);
    RoundTripItems(items, r);
    hide EncodeItems, CanonItems;
    assert s[0] == TAG_SLICE && s[1..] == Word64(|items|) + body;
  }

  lemma {:induction false} MapRoundTrip(entries: seq<Entry>, r: string)
    requires FitsMap(entries)
    ensures Decode(Encode(Map(entries)) + r) == Some((Canon(Map(entries)), r))
    decreases entries, |entries| + 1
  {
    hide Word64, ReadWord, Field, ReadField, Sort, Keys;
    SortedKeysExist(entries);
    var keys := Sort(Keys(entries));
    var s, body := Encode(Map(entries)) + r, EncodeKeys(keys, entries) + r;
    assert EncodeMap(entries) == Word64(|entries|) + EncodeKeys(keys, entries);
    assert s == [TAG_MAP] + (Word64(|entries|) + body);
    WordReads(|entries|, body);
    RoundTripKeys(keys, entries, r);
    hide EncodeKeys, CanonKeys;
    assert s[0] == TAG_MAP && s[1..] == Word64(|entries|) + body;
  }

  lemma {:induction false} RoundTripItems(items: seq<Value>, r: string)
    requires forall i :: 0 <= i < |items| ==> Fits(items[i])
    ensures DecodeItems(|items|, EncodeItems(items) + r) == Some((CanonItems(items), r))
    decreases items, |items|
  {
    if items == [] {
      assert EncodeItems(items) + r == r;
    } else {
      hide Encode, Decode;
      var rest := EncodeItems(items[1..]) + r;
      assert EncodeItems(items) + r == Encode(items[0]) + rest;
      RoundTrip(items[0], rest);
      RoundTripItems(items[1..], r);
    }
  }

  lemma {:induction false} RoundTripKeys(keys: seq<Text>, entries: seq<Entry>, r: string)
    requires FitsMap(entries) && HaveKeys(entries, keys) && |keys| <= |entries|
    ensures DecodeEntries(|keys|, EncodeKeys(keys, entries) + r) == Some((CanonKeys(keys, entries), r))
    decreases entries, |keys|
  {
    hide Encode, Decode, ReadField, Field, First, Canon;
    if keys == [] {
      assert EncodeKeys(keys, entries) + r == r;
    } else {
      var value := Get(entries, keys[0]);
      var rest := EncodeKeys(keys[1..], entries) + r;
      assert EncodeKeys(keys, entries) + r == Field(keys[0]) + (Encode(value) + rest);
      FieldReads(keys[0], Encode(value) + rest);
      RoundTrip(value, rest);
      RoundTripKeys(keys[1..], entries, r);
    }
  }

  // ---- The bytes themselves ----

  /** Byte `k` counts the 256^k. */
  lemma {:induction false} LittleEndianAt(v: nat, n: nat, k: nat)
    requires k < n
    ensures LittleEndian(v, n)[k] as int == v / Capacity(k) % 256
  {
    if k > 0 {
      LittleEndianAt(v / 256, n - 1, k - 1);
      DivideTwice(v, Capacity(k - 1));
    }
  }

  lemma DivideTwice(v: nat, c: int)
    requires c >= 1
    ensures v / 256 / c == v / (256 * c)
  {
    var p, q := v / 256, v / 256 / c;
    assert q * c <= p < q * c + c;
    assert 256 * c * q == 256 * (q * c) && 256 * c * (q + 1) == 256 * (q * c) + 256 * c;
    assert 256 * c * q <= v < 256 * c * (q + 1);
    QuotientIs(v, 256 * c, q);
  }

  lemma QuotientIs(v: nat, d: int, q: nat)
    requires d > 0 && d * q <= v < d * (q + 1)
    ensures v / d == q
  {
    var r := v / d;
    assert d * r <= v < d * (r + 1);
    ProductGrows(d, r + 1, q);
    ProductGrows(d, q + 1, r);
  }

  lemma ProductGrows(d: nat, a: nat, b: nat)
    ensures a <= b ==> d * a <= d * b
  {
  }

  /** What kind of value follows is the first byte, and how long it is the next eight. */
  lemma KindIsFirstByte(v: Value)
    requires Fits(v)
    ensures Encode(v) != ""
    ensures Encode(v)[0] as int == match v
      case Nil => 0 case Str(_) => 1 case Int(_) => 2 case Double(_) => 3
      case Bool(_) => 4 case Raw(_) => 5 case Slice(_) => 6 case Map(_) => 7
    ensures v.Nil? ==> |Encode(v)| == 1
    ensures v.Bool? ==> |Encode(v)| == 2 && Encode(v)[1] as int == (if v.flag then 1 else 0)
    ensures v.Str? ==> |Encode(v)| == 9 + |v.text| && Encode(v)[9..] == v.text
    ensures v.Raw? ==> |Encode(v)| == 9 + |v.bytes| && Encode(v)[9..] == v.bytes
    ensures v.Int? || v.Double? ==> |Encode(v)| == 9
  {
    hide Word64, EncodeItems, EncodeMap;
  }

  /** The eight bytes after it: a length or a count, a number's two's complement, or a double's bits. */
  lemma WordAfterKind(v: Value, k: nat)
    requires Fits(v) && !v.Nil? && !v.Bool? && k < 8
    ensures |Encode(v)| >= 9
    ensures Encode(v)[1 + k] as int == (match v
      case Str(text) => |text| case Raw(bytes) => |bytes| case Slice(items) => |items| case Map(entries) => |entries|
      case Int(i) => if i < 0 then 0x1_0000_0000_0000_0000 + i else i
      case Double(bits) => bits
      case _ => 0) / Capacity(k) % 256
  {
    var w: Word := match v
      case Str(text) => |text| case Raw(bytes) => |bytes| case Slice(items) => |items| case Map(entries) => |entries|
      case Int(i) => Unsigned(i)
      case Double(bits) => bits;
    LittleEndianAt(w, 8, k);
    hide LittleEndian, EncodeItems, EncodeKeys, Capacity;
    assert Encode(v)[1..9] == Word64(w);
    assert Encode(v)[1..9][k] == Encode(v)[1 + k];
  }

  // ---- What the bytes determine ----

  lemma {:induction false} AlikeEncode(v: Value, w: Value)
    requires Fits(v) && Fits(w) && Canon(v) == Canon(w)
    ensures Encode(v) == Encode(w)
    decreases v, 0
  {
    hide Word64, Field, Sort, Keys;
    match v
    case Slice(items) => AlikeItems(items, w.items);
    case Map(entries) =>
      SortedKeysExist(entries);
      SortedKeysExist(w.entries);
      AlikeKeys(Sort(Keys(entries)), entries, Sort(Keys(w.entries)), w.entries);
    case _ =>
  }

  lemma {:induction false} AlikeItems(a: seq<Value>, b: seq<Value>)
    requires forall i :: 0 <= i < |a| ==> Fits(a[i])
    requires forall i :: 0 <= i < |b| ==> Fits(b[i])
    requires CanonItems(a) == CanonItems(b)
    ensures |a| == |b| && EncodeItems(a) == EncodeItems(b)
    decreases a, |a|
  {
    assert |CanonItems(a)| == |CanonItems(b)|;
    if a != [] {
      hide Canon, Encode;
      assert CanonItems(a)[0] == CanonItems(b)[0] && CanonItems(a)[1..] == CanonItems(b)[1..];
      AlikeEncode(a[0], b[0]);
      AlikeItems(a[1..], b[1..]);
    }
  }

  lemma {:induction false} AlikeKeys(j: seq<Text>, a: seq<Entry>, k: seq<Text>, b: seq<Entry>)
    requires FitsMap(a) && HaveKeys(a, j) && |j| <= |a|
    requires FitsMap(b) && HaveKeys(b, k) && |k| <= |b|
    requires CanonKeys(j, a) == CanonKeys(k, b)
    ensures |j| == |k| && EncodeKeys(j, a) == EncodeKeys(k, b)
    decreases a, |j|
  {
    assert |CanonKeys(j, a)| == |CanonKeys(k, b)|;
    if j != [] {
      hide Canon, Encode, Field, First;
      assert CanonKeys(j, a)[0] == CanonKeys(k, b)[0] && CanonKeys(j, a)[1..] == CanonKeys(k, b)[1..];
      AlikeEncode(Get(a, j[0]), Get(b, k[0]));
      AlikeKeys(j[1..], a, k[1..], b);
    }
  }

  /** Encodings are prefix-free and determine the canonical value, and nothing more than it. */
  lemma PrefixFree(v: Value, r: string, w: Value, s: string)
    requires Fits(v) && Fits(w)
    ensures Encode(v) + r == Encode(w) + s <==> Canon(v) == Canon(w) && r == s
  {
    RoundTrip(v, r);
    RoundTrip(w, s);
    hide Encode, Decode, Canon;
    if Canon(v) == Canon(w) { AlikeEncode(v, w); }
  }

  lemma {:induction false} CanonKeysAt(keys: seq<Text>, entries: seq<Entry>, i: nat)
    requires HaveKeys(entries, keys) && |keys| <= |entries| && i < |keys|
    ensures CanonKeys(keys, entries)[i] == Entry(keys[i], Canon(Get(entries, keys[i])))
  {
    hide Canon, First;
    if i > 0 { CanonKeysAt(keys[1..], entries, i - 1); }
  }

  /** Two attribute maps hold the same: each key as often, and the same canonical value under it. */
  ghost predicate SameContent(a: seq<Entry>, b: seq<Entry>) {
    && multiset(Keys(a)) == multiset(Keys(b))
    && forall k :: HasKey(a, k) && HasKey(b, k) ==> Canon(Get(a, k)) == Canon(Get(b, k))
  }

  lemma KeyIsListed(entries: seq<Entry>, key: Text)
    ensures HasKey(entries, key) <==> key in Keys(entries)
    ensures HasKey(entries, key) <==> key in multiset(Keys(entries))
    ensures HasKey(entries, key) <==> key in Sort(Keys(entries))
  {
    SortKeeps(Keys(entries));
    assert key in Sort(Keys(entries)) <==> key in multiset(Sort(Keys(entries)));
    if HasKey(entries, key) {
      var i :| 0 <= i < |entries| && entries[i].key == key;
      assert Keys(entries)[i] == key;
    }
  }

  lemma {:induction false} SameKeysCanon(keys: seq<Text>, a: seq<Entry>, b: seq<Entry>)
    requires HaveKeys(a, keys) && HaveKeys(b, keys) && |keys| <= |a| && |keys| <= |b|
    requires forall k :: k in keys ==> Canon(Get(a, k)) == Canon(Get(b, k))
    ensures CanonKeys(keys, a) == CanonKeys(keys, b)
  {
    hide Canon, First, HasKey;
    if keys != [] {
      assert keys[0] in keys;
      SameKeysCanon(keys[1..], a, b);
    }
  }

  lemma SameContentIffCanon(a: seq<Entry>, b: seq<Entry>)
    ensures SameContent(a, b) <==> CanonMap(a) == CanonMap(b)
  {
    var j, k := Sort(Keys(a)), Sort(Keys(b));
    SortedKeysExist(a);
    SortedKeysExist(b);
    SortKeeps(Keys(a));
    SortKeeps(Keys(b));
    hide Sort, Canon, CanonKeys, First, HasKey;
    if SameContent(a, b) {
      SortedIsUnique(j, k);
      assert |a| == |j| == |k| == |b|;
      SameKeysCanon(j, a, b);
    }
    if CanonMap(a) == CanonMap(b) {
      assert |j| == |CanonMap(a)| == |CanonMap(b)| == |k|;
      forall i | 0 <= i < |j| ensures j[i] == k[i] && Canon(Get(a, j[i])) == Canon(Get(b, k[i])) {
        CanonKeysAt(j, a, i);
        CanonKeysAt(k, b, i);
      }
      assert j == k;
      forall key | HasKey(a, key) && HasKey(b, key) ensures Canon(Get(a, key)) == Canon(Get(b, key)) {
        KeyIsListed(a, key);
        var i :| 0 <= i < |j| && j[i] == key;
      }
    }
  }

  /** Equal bytes exactly for equal content: insertion order never matters unless a key repeats. */
  lemma MapsEncodeAlike(a: seq<Entry>, b: seq<Entry>)
    requires FitsMap(a) && FitsMap(b)
    ensures EncodeMap(a) == EncodeMap(b) <==> SameContent(a, b)
  {
    SameContentIffCanon(a, b);
    PrefixFree(Map(a), "", Map(b), "");
    assert EncodeMap(a) == EncodeMap(b) <==> Encode(Map(a)) == Encode(Map(b)) by {
      assert Encode(Map(a))[1..] == EncodeMap(a) && Encode(Map(b))[1..] == EncodeMap(b);
    }
    assert Encode(Map(a)) + "" == Encode(Map(a)) && Encode(Map(b)) + "" == Encode(Map(b));
  }

  ghost predicate HasUniqueKeys(entries: seq<Entry>) {
    forall i, j :: 0 <= i < j < |entries| ==> entries[i].key != entries[j].key
  }

  lemma UniqueGet(entries: seq<Entry>, i: nat)
    requires HasUniqueKeys(entries) && i < |entries|
    ensures HasKey(entries, entries[i].key) && Get(entries, entries[i].key) == entries[i].value
  {
    assert HasKey(entries, entries[i].key);
    var f := First(entries, entries[i].key);
    assert f == i;
  }

  function Without(entries: seq<Entry>, i: nat): (rest: seq<Entry>)
    requires i < |entries|
    ensures |rest| == |entries| - 1
  {
    entries[..i] + entries[i + 1..]
  }

  lemma CountsWithout(entries: seq<Entry>, i: nat)
    requires i < |entries|
    ensures multiset(Without(entries, i)) == multiset(entries) - multiset{entries[i]}
    ensures multiset(Keys(entries)) == multiset(Keys(Without(entries, i))) + multiset{entries[i].key}
  {
    var before, after := entries[..i], entries[i + 1..];
    assert entries == before + [entries[i]] + after;
    assert Keys(entries) == Keys(before) + [entries[i].key] + Keys(after);
    assert Keys(Without(entries, i)) == Keys(before) + Keys(after);
  }

  lemma SameLength(a: seq<Entry>, b: seq<Entry>)
    requires multiset(a) == multiset(b)
    ensures |a| == |b|
  {
    assert |multiset(a)| == |a| && |multiset(b)| == |b|;
  }

  lemma {:induction false} KeyCounts(a: seq<Entry>, b: seq<Entry>)
    requires multiset(a) == multiset(b)
    ensures multiset(Keys(a)) == multiset(Keys(b))
    decreases |a|
  {
    hide Keys, Without;
    SameLength(a, b);
    if a == [] {
      assert b == [];
    } else {
      assert a[0] in multiset(b);
      var i :| 0 <= i < |b| && b[i] == a[0];
      CountsWithout(a, 0);
      CountsWithout(b, i);
      KeyCounts(Without(a, 0), Without(b, i));
    }
  }

  /** The order in which distinct keys were inserted leaves no trace. */
  lemma InsertionOrderIsIrrelevant(a: seq<Entry>, b: seq<Entry>)
    requires FitsMap(a) && FitsMap(b) && HasUniqueKeys(a) && HasUniqueKeys(b) && multiset(a) == multiset(b)
    ensures EncodeMap(a) == EncodeMap(b)
  {
    KeyCounts(a, b);
    hide Canon, First, EncodeMap, Keys, FitsMap;
    forall k | HasKey(a, k) && HasKey(b, k) ensures Canon(Get(a, k)) == Canon(Get(b, k)) {
      var i :| 0 <= i < |a| && a[i].key == k;
      assert a[i] in multiset(b);
      var j :| 0 <= j < |b| && b[j] == a[i];
      UniqueGet(a, i);
      UniqueGet(b, j);
    }
    MapsEncodeAlike(a, b);
  }

  /** Nothing is lost of a map with distinct keys: every entry can be read back under its key. */
  lemma EntriesAreReadBack(entries: seq<Entry>, r: string, i: nat)
    requires FitsMap(entries) && HasUniqueKeys(entries) && i < |entries|
    ensures Decode(Encode(Map(entries)) + r) == Some((Map(CanonMap(entries)), r))
    ensures Entry(entries[i].key, Canon(entries[i].value)) in CanonMap(entries)
  {
    RoundTrip(Map(entries), r);
    UniqueGet(entries, i);
    KeyIsListed(entries, entries[i].key);
    SortedKeysExist(entries);
    hide Decode, Encode, Canon, First, HasKey, Sort;
    var keys := Sort(Keys(entries));
    var k :| 0 <= k < |keys| && keys[k] == entries[i].key;
    CanonKeysAt(keys, entries, k);
    assert CanonMap(entries)[k] == Entry(entries[i].key, Canon(entries[i].value));
  }

  /** A repeated key is written as often as it occurs, each time with its first value: the later values are lost. */
  lemma RepeatedKeyLosesValues(key: Text, first: Value, second: Value)
    requires Fits(first) && Fits(second)
    ensures EncodeMap([Entry(key, first), Entry(key, second)]) == EncodeMap([Entry(key, first), Entry(key, first)])
  {
    var a, b := [Entry(key, first), Entry(key, second)], [Entry(key, first), Entry(key, first)];
    assert Keys(a) == Keys(b);
    forall k | HasKey(a, k) && HasKey(b, k) ensures Get(a, k) == Get(b, k) {
      assert First(a, k) == 0 == First(b, k);
    }
    hide Canon, Encode, EncodeMap, First;
    MapsEncodeAlike(a, b);
  }

  // ---- The writer ----

  class Buffer {
    var data: string

    constructor ()
      ensures data == ""
    {
      data := "";
    }

    method WriteBinaryUint64(value: Word)
      modifies this
      ensures data == old(data) + Word64(value)
    {
      hide LittleEndian;
      var raw := new char[8];
      var rest: nat := value;
      for i := 0 to 8
        invariant raw[..i] + LittleEndian(rest, 8 - i) == Word64(value)
        invariant data == old(data)
      {
        LeastFirst(rest, 8 - i);
        ghost var written := raw[..i];
        raw[i] := (rest % 256) as char;
        rest := rest / 256;
        assert raw[..i + 1] == written + [raw[i]];
      }
      assert raw[..8] == raw[..];
      data := data + raw[..];
    }

    method WriteByte(b: char)
      modifies this
      ensures data == old(data) + [b]
    {
      data := data + [b];
    }

    method WriteBinaryString(value: Text)
      modifies this
      ensures data == old(data) + Field(value)
    {
      hide Word64;
      WriteBinaryUint64(|value|);
      data := data + value;
      assert data == old(data) + (Word64(|value|) + value);
    }

    method WriteScalar(value: Value)
      requires !value.Slice? && !value.Map?
      modifies this
      ensures data == old(data) + Encode(value)
    {
      hide Word64, Field;
      match value
      case Nil => WriteByte(TAG_NIL);
      case Str(text) =>
        WriteByte(TAG_STRING);
        WriteBinaryString(text);
      case Int(i) =>
        WriteByte(TAG_INT64);
        WriteBinaryUint64(Unsigned(i));
      case Double(bits) =>
        WriteByte(TAG_FLOAT64);
        WriteBinaryUint64(bits);
      case Bool(b) =>
        WriteByte(TAG_BOOL);
        if b { WriteByte(1 as char); } else { WriteByte(0 as char); }
      case Raw(bytes) =>
        WriteByte(TAG_BYTES);
        WriteBinaryString(bytes);
      case _ =>
    }

    method WritePcommonValue(value: Value)
      requires Fits(value)
      modifies this
      ensures data == old(data) + Encode(value)
      decreases value, 0
    {
      hide Word64, EncodeMap, EncodeItems;
      match value
      case Slice(items) =>
        WriteByte(TAG_SLICE);
        WriteBinaryUint64(|items|);
        WriteItems(items);
        assert old(data) + [TAG_SLICE] + Word64(|items|) + EncodeItems(items)
          == old(data) + ([TAG_SLICE] + Word64(|items|) + EncodeItems(items));
      case Map(entries) =>
        WriteByte(TAG_MAP);
        WritePcommonMap(entries);
      case _ => WriteScalar(value);
    }

    method WriteItems(items: seq<Value>)
      requires forall i :: 0 <= i < |items| ==> Fits(items[i])
      modifies this
      ensures data == old(data) + EncodeItems(items)
      decreases items, |items|
    {
      hide Encode, Fits;
      for i := 0 to |items|
        invariant data + EncodeItems(items[i..]) == old(data) + EncodeItems(items)
      {
        ghost var before := data;
        assert items[i..][0] == items[i] && items[i..][1..] == items[i + 1..];
        WritePcommonValue(items[i]);
        assert before + (Encode(items[i]) + EncodeItems(items[i + 1..])) == data + EncodeItems(items[i + 1..]);
      }
      assert items[|items|..] == [];
    }

    method WritePcommonMap(attrs: seq<Entry>)
      requires FitsMap(attrs)
      modifies this
      ensures data == old(data) + EncodeMap(attrs)
      decreases attrs, |attrs| + 1
    {
      hide Encode, Fits, Word64, Sort, Field, First, HasKey, Keys;
      SortedKeysExist(attrs);
      var keys := Sort(Keys(attrs));
      WriteBinaryUint64(|keys|);
      ghost var start := data;
      for i := 0 to |keys|
        invariant data + EncodeKeys(keys[i..], attrs) == start + EncodeKeys(keys, attrs)
      {
        ghost var before := data;
        assert keys[i..][0] == keys[i] && keys[i..][1..] == keys[i + 1..] && keys[i] in keys;
        WriteBinaryString(keys[i]);
        WritePcommonValue(Get(attrs, keys[i]));
        assert before + (Field(keys[i]) + Encode(Get(attrs, keys[i])) + EncodeKeys(keys[i + 1..], attrs))
          == data + EncodeKeys(keys[i + 1..], attrs);
      }
      assert keys[|keys|..] == [];
      assert old(data) + Word64(|attrs|) + EncodeKeys(keys, attrs)
        == old(data) + (Word64(|attrs|) + EncodeKeys(keys, attrs));
    }
  }

  /** "OATTR" and the version byte. */
  const OTLP_ATTRIBUTES_PREFIX: string := "OATTR" + [1 as char]

  method EncodeOTLPAttributes(attrs: seq<Entry>) returns (encoded: string)
    requires FitsMap(attrs)
    ensures encoded == OTLP_ATTRIBUTES_PREFIX + EncodeMap(attrs)
  {
    hide EncodeMap;
    var buffer := new Buffer();
    buffer.data := buffer.data + OTLP_ATTRIBUTES_PREFIX;
    buffer.WritePcommonMap(attrs);
    encoded := buffer.data;
  }
}
