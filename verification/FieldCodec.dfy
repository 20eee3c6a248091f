/**
 The fields of a measurement and their binary encoding (tsdb/shard.go). A float
 is its 64-bit pattern, and a string is its bytes.
 */
module FieldCodec {
  import opened Values
  import opened Sequences

  type byte = x: int | 0 <= x < 256

  datatype DataType = FloatType | IntegerType | BooleanType | StringType

  datatype Field = Field(id: byte, name: string, typ: DataType)

  /** Every width of integer is widened to 64 bits. */
  datatype FieldValue = Float64(bits: nat) | Int64(i: int) | Flag(b: bool) | Text(s: seq<byte>)

  const TWO_16: int := 0x1_0000
  const TWO_63: int := 0x8000_0000_0000_0000
  const TWO_64: int := 0x1_0000_0000_0000_0000
  const MAX_STRING_LENGTH: nat := 64 * 1024

  function TypeOf(v: FieldValue): DataType {
    match v
    case Float64(_) => FloatType
    case Int64(_) => IntegerType
    case Flag(_) => BooleanType
    case Text(_) => StringType
  }

  /** The values the machine has. */
  predicate InRange(v: FieldValue) {
    match v
    case Float64(bits) => bits < TWO_64
    case Int64(i) => -TWO_63 <= i < TWO_63
    case Flag(_) => true
    case Text(_) => true
  }

  // ----- Big-endian numbers -----

  function Pow256(k: nat): nat {
    if k == 0 then 1 else 256 * Pow256(k - 1)
  }

  function BigEndian(n: nat, k: nat): (s: seq<byte>)
    ensures |s| == k
  {
    if k == 0 then [] else BigEndian(n / 256, k - 1) + [n % 256]
  }

  function Uint(s: seq<byte>): nat {
    if s == [] then 0 else 256 * Uint(s[..|s| - 1]) + s[|s| - 1]
  }

  lemma {:induction false} UintOfBigEndian(n: nat, k: nat)
    requires n < Pow256(k)
    ensures Uint(BigEndian(n, k)) == n
  {
    if k > 0 {
      UintOfBigEndian(n / 256, k - 1);
      var s := BigEndian(n, k);
      assert s[..k - 1] == BigEndian(n / 256, k - 1);
    }
  }

  lemma {:induction false} UintBound(s: seq<byte>)
    ensures Uint(s) < Pow256(|s|)
  {
    if s != [] {
      UintBound(s[..|s| - 1]);
    }
  }

  lemma Widths()
    ensures Pow256(2) == TWO_16 && Pow256(8) == TWO_64
  {
    assert Pow256(1) == 256;
    assert Pow256(2) == 256 * Pow256(1);
    assert Pow256(3) == 256 * Pow256(2);
    assert Pow256(4) == 256 * Pow256(3);
    assert Pow256(5) == 256 * Pow256(4);
    assert Pow256(6) == 256 * Pow256(5);
    assert Pow256(7) == 256 * Pow256(6);
    assert Pow256(8) == 256 * Pow256(7);
  }

  /** The two's complement of a 64-bit integer. */
  function Unsigned(i: int): nat
    requires -TWO_63 <= i < TWO_63
  {
    if i < 0 then i + TWO_64 else i
  }

  function Signed(u: nat): int {
    if u >= TWO_63 then u - TWO_64 else u
  }

  // ----- One field -----

  /** The encoding of a value after the id: long strings are cut, and the length is kept in 16 bits. */
  function Payload(v: FieldValue): seq<byte>
    requires InRange(v)
  {
    match v
    case Float64(bits) => BigEndian(bits, 8)
    case Int64(i) => BigEndian(Unsigned(i), 8)
    case Flag(b) => [if b then 1 else 0]
    case Text(s) =>
      var t := if |s| > MAX_STRING_LENGTH then s[..MAX_STRING_LENGTH] else s;
      BigEndian(|t| % TWO_16, 2) + t
  }

  function EncodeOne(id: byte, v: FieldValue): (b: seq<byte>)
    requires InRange(v)
    ensures |b| > 0 && b[0] == id
  {
    [id] + Payload(v)
  }

  /** The most significant byte comes first. */
  lemma {:induction false} BigEndianByte(n: nat, k: nat, i: nat)
    requires i < k
    ensures Pow256(k - 1 - i) > 0 && BigEndian(n, k)[i] == n / Pow256(k - 1 - i) % 256
  {
    PowPositive(k - 1 - i);
    if i < k - 1 {
      BigEndianByte(n / 256, k - 1, i);
      PowPositive(k - 2 - i);
      DivideTwice(n, Pow256(k - 2 - i));
    }
  }

  lemma {:induction false} PowPositive(k: nat)
    ensures Pow256(k) > 0
  {
    if k > 0 {
      PowPositive(k - 1);
    }
  }

  lemma DivideTwice(n: nat, p: nat)
    requires p > 0
    ensures n / 256 / p == n / (256 * p)
  {
    var q := n / 256 / p;
    assert q * p <= n / 256 < (q + 1) * p;
    Scaled(q, p);
    Scaled(q + 1, p);
    assert q * (256 * p) <= n < (q + 1) * (256 * p);
    QuotientBetween(n, 256 * p, q);
  }

  lemma Scaled(q: int, p: int)
    ensures q * (256 * p) == 256 * (q * p)
  {
  }

  lemma QuotientBetween(n: nat, d: nat, q: nat)
    requires d > 0 && q * d <= n < (q + 1) * d
    ensures n / d == q
  {
    var k := n / d;
    assert k * d <= n < k * d + d;
    ProductGrows(q + 1, k, d);
    ProductGrows(k + 1, q, d);
  }

  lemma ProductGrows(a: int, b: int, d: nat)
    ensures a <= b ==> a * d <= b * d
    ensures a * d + d == (a + 1) * d
  {
    if a <= b {
      assert (b - a) * d >= 0;
    }
  }

  /**
   The bytes of a field: its id, and then the value. Numbers are eight bytes, the
   integers in two's complement, a flag is one, and a string has its length in two
   bytes before it.
   */
  lemma Layout(id: byte, v: FieldValue)
    requires InRange(v)
    ensures var b := EncodeOne(id, v);
      && b[0] == id
      && match v
         case Float64(bits) => |b| == 9 && Uint(b[1..]) == bits
         case Int64(i) => |b| == 9 && (Uint(b[1..]) == i || Uint(b[1..]) == i + TWO_64)
         case Flag(f) => b[1..] == [if f then 1 else 0]
         case Text(s) => |s| < TWO_16 ==> |b| == 3 + |s| && 256 * (b[1] as int) + b[2] as int == |s| && b[3..] == s
  {
    Widths();
    var b := EncodeOne(id, v);
    assert b[1..] == Payload(v);
    match v
    case Float64(bits) => UintOfBigEndian(bits, 8);
    case Int64(i) => UintOfBigEndian(Unsigned(i), 8);
    case Flag(f) =>
    case Text(s) =>
      if |s| < TWO_16 {
        TextLayout(id, s);
      }
      hide BigEndian, Uint;
  }

  lemma TextLayout(id: byte, s: seq<byte>)
    requires |s| < TWO_16
    ensures var b := EncodeOne(id, Text(s));
      |b| == 3 + |s| && 256 * (b[1] as int) + b[2] as int == |s| && b[3..] == s
  {
    var n, b := BigEndian(|s|, 2), EncodeOne(id, Text(s));
    assert Payload(Text(s)) == n + s;
    TwoBytes(|s|);
    hide BigEndian;
    assert b == [id] + (n + s);
    assert b[1] == n[0] && b[2] == n[1] && b[3..] == s;
  }

  lemma TwoBytes(n: nat)
    requires n < TWO_16
    ensures var s := BigEndian(n, 2);
      256 * (s[0] as int) + s[1] as int == n
  {
    BigEndianByte(n, 2, 0);
    BigEndianByte(n, 2, 1);
    assert Pow256(1) == 256 * Pow256(0) && Pow256(0) == 1;
    hide BigEndian, Pow256;
  }

  datatype Step = Got(value: FieldValue, size: nat) | OutOfRange

  /** The value at the head of the bytes. The end of a string is computed in 16 bits. */
  function ReadValue(typ: DataType, b: seq<byte>): (r: Step)
    requires b != []
    ensures r.Got? ==> 0 < r.size <= |b|
  {
    match typ
    case FloatType => if |b| < 9 then OutOfRange else Got(Float64(Uint(b[1..9])), 9)
    case IntegerType => if |b| < 9 then OutOfRange else Got(Int64(Signed(Uint(b[1..9]))), 9)
    case BooleanType => if |b| < 2 then OutOfRange else Got(Flag(b[1] == 1), 2)
    case StringType =>
      if |b| < 3 then OutOfRange
      else
        var end := (Uint(b[1..3]) + 3) % TWO_16;
        if end < 3 || end > |b| then OutOfRange else Got(Text(b[3..end]), end)
  }

  /** The longest string whose end fits in 16 bits. */
  const LONGEST: nat := 65_532

  predicate Short(v: FieldValue) {
    v.Text? ==> |v.s| <= LONGEST
  }

  lemma ReadBack(id: byte, v: FieldValue, rest: seq<byte>)
    requires InRange(v) && Short(v)
    ensures ReadValue(TypeOf(v), EncodeOne(id, v) + rest) == Got(v, |EncodeOne(id, v)|)
  {
    if v.Float64? {
      ReadBackNumber(id, v.bits, rest);
    } else if v.Int64? {
      ReadBackNumber(id, Unsigned(v.i), rest);
    } else if v.Text? {
      ReadBackText(id, v.s, rest);
    }
    hide BigEndian, Uint;
  }

  lemma ReadBackNumber(id: byte, n: nat, rest: seq<byte>)
    requires n < TWO_64
    ensures var b := [id] + BigEndian(n, 8) + rest; |b| >= 9 && Uint(b[1..9]) == n
  {
    Widths();
    UintOfBigEndian(n, 8);
    hide *;
    var b := [id] + BigEndian(n, 8) + rest;
    assert b[1..9] == BigEndian(n, 8);
  }

  lemma ReadBackText(id: byte, s: seq<byte>, rest: seq<byte>)
    requires |s| <= LONGEST
    ensures var b := [id] + (BigEndian(|s| % TWO_16, 2) + s) + rest;
      |b| >= 3 + |s| && (Uint(b[1..3]) + 3) % TWO_16 == 3 + |s| && b[3..3 + |s|] == s
  {
    Widths();
    UintOfBigEndian(|s|, 2);
    SmallMod(|s|);
    SmallMod(|s| + 3);
    Sliced(id, BigEndian(|s|, 2), s, rest);
    hide *;
  }

  lemma SmallMod(n: nat)
    requires n < TWO_16
    ensures n % TWO_16 == n
  {
  }

  lemma Sliced<T>(x: T, a: seq<T>, s: seq<T>, rest: seq<T>)
    requires |a| == 2
    ensures var b := [x] + (a + s) + rest; |b| >= 3 + |s| && b[1..3] == a && b[3..3 + |s|] == s
  {
  }

  /** No decoded string is longer. */
  lemma ReadsShort(typ: DataType, b: seq<byte>)
    requires b != [] && ReadValue(typ, b).Got?
    ensures Short(ReadValue(typ, b).value)
  {
  }

  /** A decoded value is one the machine has, of the type asked for. */
  lemma ReadsInRange(typ: DataType, b: seq<byte>)
    requires b != [] && ReadValue(typ, b).Got?
    ensures InRange(ReadValue(typ, b).value) && TypeOf(ReadValue(typ, b).value) == typ
  {
    Widths();
    if typ == FloatType || typ == IntegerType {
      UintBound(b[1..9]);
    }
    hide Uint, Pow256;
  }

  // ----- A point's fields -----

  type ById = map<byte, Field>
  type ByName = map<string, Field>

  datatype Item = Item(id: byte, value: FieldValue)

  datatype Parsed = Items(items: seq<Item>) | UnmappedID | Panics

  /** The fields in the bytes, in order. */
  function Parse(byID: ById, b: seq<byte>): Parsed
    decreases |b|
  {
    if b == [] then Items([])
    else if b[0] !in byID then UnmappedID
    else
      var r := ReadValue(byID[b[0]].typ, b);
      if r.OutOfRange? then Panics
      else
        var rest := Parse(byID, b[r.size..]);
        if rest.Items? then Items([Item(b[0], r.value)] + rest.items) else rest
  }

  /** A later field under the same id replaces an earlier one. */
  function ToMap(items: seq<Item>): map<byte, FieldValue> {
    if items == [] then map[] else ToMap(items[..|items| - 1])[items[|items| - 1].id := items[|items| - 1].value]
  }

  /** The encodings of some fields, one after another. */
  function Encoding(byName: ByName, values: map<string, FieldValue>, order: seq<string>): seq<byte>
    requires forall k :: k in order ==> k in byName && k in values && InRange(values[k])
  {
    if order == [] then []
    else EncodeOne(byName[order[0]].id, values[order[0]]) + Encoding(byName, values, order[1..])
  }

  function ItemsOf(byName: ByName, values: map<string, FieldValue>, order: seq<string>): seq<Item>
    requires forall k :: k in order ==> k in byName && k in values
  {
    if order == [] then [] else [Item(byName[order[0]].id, values[order[0]])] + ItemsOf(byName, values, order[1..])
  }

  /** The two maps of a codec, made from one field map: no two fields share an id. */
  ghost predicate Coded(fields: ByName, byID: ById) {
    && (forall k :: k in fields ==> fields[k].name == k && fields[k].id in byID && byID[fields[k].id] == fields[k])
    && forall id :: id in byID ==> byID[id].id == id && byID[id].name in fields && fields[byID[id].name] == byID[id]
  }

  predicate Fits(fields: ByName, values: map<string, FieldValue>) {
    forall k :: k in values ==> k in fields && TypeOf(values[k]) == fields[k].typ && InRange(values[k])
  }

  lemma {:induction false} ParseEncoding(fields: ByName, byID: ById, values: map<string, FieldValue>, order: seq<string>)
    requires Coded(fields, byID) && Fits(fields, values) && (forall k :: k in order ==> k in values)
    requires forall k :: k in order ==> Short(values[k])
    ensures Parse(byID, Encoding(fields, values, order)) == Items(ItemsOf(fields, values, order))
  {
    if order != [] {
      hide ReadValue, EncodeOne, InRange, Short, Coded;
      var k := order[0];
      var rest := Encoding(fields, values, order[1..]);
      ParseEncoding(fields, byID, values, order[1..]);
      CodedAt(fields, byID, k);
      ReadBack(fields[k].id, values[k], rest);
      var one := EncodeOne(fields[k].id, values[k]);
      assert Encoding(fields, values, order) == one + rest;
      assert (one + rest)[|one|..] == rest;
    }
  }

  lemma CodedAt(fields: ByName, byID: ById, k: string)
    requires Coded(fields, byID) && k in fields
    ensures fields[k].id in byID && byID[fields[k].id] == fields[k] && fields[k].name == k
  {
  }

  /** The keys of a map in some order, each once: the order its iteration takes. */
  ghost predicate Enumerates(order: seq<string>, keys: set<string>) {
    && (forall k :: k in order <==> k in keys)
    && forall i, j :: 0 <= i < j < |order| ==> order[i] != order[j]
  }

  // ----- The round trip -----

  predicate DistinctIds(items: seq<Item>) {
    forall i, j :: 0 <= i < j < |items| ==> items[i].id != items[j].id
  }

  lemma {:induction false} ToMapHas(items: seq<Item>)
    ensures forall id :: id in ToMap(items) <==> exists i :: 0 <= i < |items| && items[i].id == id
    ensures DistinctIds(items) ==> forall i :: 0 <= i < |items| ==> ToMap(items)[items[i].id] == items[i].value
  {
    if items != [] {
      var n := |items| - 1;
      var head := items[..n];
      ToMapHas(head);
      assert forall i :: 0 <= i < n ==> head[i] == items[i];
      forall id ensures id in ToMap(items) <==> exists i :: 0 <= i < |items| && items[i].id == id {
        if id in ToMap(head) {
          var i :| 0 <= i < n && head[i].id == id;
          assert items[i].id == id;
        }
        if id == items[n].id {
          assert id in ToMap(items);
        }
      }
    }
  }

  lemma {:induction false} ItemsAt(fields: ByName, values: map<string, FieldValue>, order: seq<string>)
    requires forall k :: k in order ==> k in fields && k in values
    ensures |ItemsOf(fields, values, order)| == |order|
    ensures forall i :: 0 <= i < |order| ==> ItemsOf(fields, values, order)[i] == Item(fields[order[i]].id, values[order[i]])
  {
    if order != [] {
      ItemsAt(fields, values, order[1..]);
    }
  }

  /** `m` is the decoded map under names instead of ids. */
  ghost predicate Names(byID: ById, byId: map<byte, FieldValue>, m: map<string, FieldValue>) {
    && (forall id :: id in byId && id in byID ==> byID[id].name in m && m[byID[id].name] == byId[id])
    && forall k :: k in m ==> exists id :: id in byId && id in byID && byID[id].name == k
  }

  lemma NamesUnique(byID: ById, byId: map<byte, FieldValue>, m: map<string, FieldValue>, m': map<string, FieldValue>)
    requires Names(byID, byId, m) && Names(byID, byId, m')
    ensures m == m'
  {
    assert forall k :: k in m ==> k in m' && m[k] == m'[k];
    assert forall k :: k in m' ==> k in m;
  }

  lemma EncodedNames(fields: ByName, byID: ById, values: map<string, FieldValue>, order: seq<string>)
    requires Coded(fields, byID) && Fits(fields, values) && Enumerates(order, values.Keys)
    ensures DistinctIds(ItemsOf(fields, values, order))
    ensures Names(byID, ToMap(ItemsOf(fields, values, order)), values)
  {
    var items := ItemsOf(fields, values, order);
    ItemsAt(fields, values, order);
    ToMapHas(items);
    forall i, j | 0 <= i < j < |items| ensures items[i].id != items[j].id {
      assert order[i] in order && order[j] in order;
      CodedAt(fields, byID, order[i]);
      CodedAt(fields, byID, order[j]);
    }
    var m := ToMap(items);
    forall id | id in m && id in byID ensures byID[id].name in values && values[byID[id].name] == m[id] {
      var i :| 0 <= i < |items| && items[i].id == id;
      assert order[i] in order;
      CodedAt(fields, byID, order[i]);
    }
    forall k | k in values ensures exists id :: id in m && id in byID && byID[id].name == k {
      assert k in order;
      var i :| 0 <= i < |order| && order[i] == k;
      CodedAt(fields, byID, k);
      assert items[i].id == fields[k].id;
    }
  }

  lemma {:induction false} ParsesShort(byID: ById, b: seq<byte>)
    requires Parse(byID, b).Items?
    ensures forall i :: 0 <= i < |Parse(byID, b).items| ==> Short(Parse(byID, b).items[i].value) && Parse(byID, b).items[i].id in byID
    decreases |b|
  {
    if b != [] {
      var r := ReadValue(byID[b[0]].typ, b);
      ReadsShort(byID[b[0]].typ, b);
      hide ReadValue, Short;
      ParsesShort(byID, b[r.size..]);
    }
  }

  /** A value that can be encoded for the field under this id, and decoded again. */
  ghost predicate Sendable(byID: ById, id: byte, v: FieldValue) {
    id in byID && TypeOf(v) == byID[id].typ && InRange(v) && Short(v)
  }

  lemma {:induction false} ParsesSendable(byID: ById, b: seq<byte>)
    requires Parse(byID, b).Items?
    ensures forall i :: 0 <= i < |Parse(byID, b).items| ==> Sendable(byID, Parse(byID, b).items[i].id, Parse(byID, b).items[i].value)
    decreases |b|
  {
    if b != [] {
      var typ := byID[b[0]].typ;
      ReadsShort(typ, b);
      ReadsInRange(typ, b);
      hide ReadValue, Short, InRange;
      ParsesSendable(byID, b[ReadValue(typ, b).size..]);
    }
  }

  lemma {:induction false} ToMapSendable(byID: ById, items: seq<Item>)
    requires forall i :: 0 <= i < |items| ==> Sendable(byID, items[i].id, items[i].value)
    ensures forall id :: id in ToMap(items) ==> Sendable(byID, id, ToMap(items)[id])
  {
    hide Sendable;
    if items != [] {
      ToMapSendable(byID, items[..|items| - 1]);
    }
  }

  /** Whatever bytes a point was decoded from, it can be encoded, and without loss. */
  lemma DecodedFits(fields: ByName, byID: ById, b: seq<byte>, m: map<string, FieldValue>)
    requires Coded(fields, byID) && Parse(byID, b).Items? && Names(byID, ToMap(Parse(byID, b).items), m)
    ensures Fits(fields, m) && forall k :: k in m ==> Short(m[k])
  {
    hide Parse, ToMap, InRange, Short;
    ParsesSendable(byID, b);
    ToMapSendable(byID, Parse(byID, b).items);
    var found := ToMap(Parse(byID, b).items);
    forall k | k in m ensures k in fields && TypeOf(m[k]) == fields[k].typ && InRange(m[k]) && Short(m[k]) {
      var id :| id in found && id in byID && byID[id].name == k;
      assert Sendable(byID, id, found[id]) && m[k] == found[id];
    }
  }

  lemma {:induction false} ToMapShort(items: seq<Item>)
    requires forall i :: 0 <= i < |items| ==> Short(items[i].value)
    ensures forall id :: id in ToMap(items) ==> Short(ToMap(items)[id])
  {
    if items != [] {
      ToMapShort(items[..|items| - 1]);
    }
  }

  /**
   Decoding an encoded point gives the point back, whatever order its map was
   iterated in, if and only if no string is longer than 65,532 bytes.
   */
  lemma RoundTripExact(fields: ByName, byID: ById, values: map<string, FieldValue>, order: seq<string>)
    requires Coded(fields, byID) && Fits(fields, values) && Enumerates(order, values.Keys)
    ensures (forall k :: k in values ==> Short(values[k])) <==>
            var p := Parse(byID, Encoding(fields, values, order)); p.Items? && Names(byID, ToMap(p.items), values)
  {
    hide Encoding, ItemsOf;
    var p := Parse(byID, Encoding(fields, values, order));
    if forall k :: k in values ==> Short(values[k]) {
      ParseEncoding(fields, byID, values, order);
      EncodedNames(fields, byID, values, order);
    }
    if p.Items? && Names(byID, ToMap(p.items), values) {
      ParsesShort(byID, Encoding(fields, values, order));
      ToMapShort(p.items);
      hide Parse, ToMap;
      forall k | k in values ensures Short(values[k]) {
        var id :| id in ToMap(p.items) && id in byID && byID[id].name == k;
      }
    }
  }

  // ----- One field by name -----

  datatype Scanned = Found(value: FieldValue) | FieldNotFound | FieldUnmappedID | ScanPanics

  /** `DecodeByID`: the first field with the id. */
  function Scan(byID: ById, target: byte, b: seq<byte>): Scanned
    decreases |b|
  {
    if b == [] then FieldNotFound
    else if b[0] !in byID then FieldUnmappedID
    else
      var r := ReadValue(byID[b[0]].typ, b);
      if r.OutOfRange? then ScanPanics
      else if byID[b[0]].id == target then Found(r.value)
      else Scan(byID, target, b[r.size..])
  }

  lemma {:induction false} ScanFinds(byID: ById, target: byte, b: seq<byte>)
    requires Parse(byID, b).Items? && forall id :: id in byID ==> byID[id].id == id
    ensures var items := Parse(byID, b).items;
      match Scan(byID, target, b)
      case Found(v) => exists i :: 0 <= i < |items| && items[i] == Item(target, v)
      case FieldNotFound => forall i :: 0 <= i < |items| ==> items[i].id != target
      case _ => false
    decreases |b|
  {
    if b != [] {
      var r := ReadValue(byID[b[0]].typ, b);
      hide ReadValue;
      var items := Parse(byID, b).items;
      assert items[0] == Item(b[0], r.value);
      if b[0] != target {
        ScanFinds(byID, target, b[r.size..]);
        var rest := Parse(byID, b[r.size..]).items;
        assert forall i :: 0 <= i < |rest| ==> items[i + 1] == rest[i];
      }
    }
  }

  /** Reading one field of an encoded point agrees with decoding the whole point. */
  lemma ScanAgrees(fields: ByName, byID: ById, values: map<string, FieldValue>, order: seq<string>, name: string)
    requires Coded(fields, byID) && Fits(fields, values) && Enumerates(order, values.Keys)
    requires (forall k :: k in values ==> Short(values[k])) && name in fields
    ensures Scan(byID, fields[name].id, Encoding(fields, values, order))
         == if name in values then Found(values[name]) else FieldNotFound
  {
    var b := Encoding(fields, values, order);
    ParseEncoding(fields, byID, values, order);
    ItemsAt(fields, values, order);
    CodedAt(fields, byID, name);
    ScanFinds(byID, fields[name].id, b);
    hide Encoding, Parse, Scan;
    var items := ItemsOf(fields, values, order);
    forall i | 0 <= i < |order| && items[i].id == fields[name].id ensures order[i] == name {
      assert order[i] in order;
      CodedAt(fields, byID, order[i]);
    }
    if name in values {
      assert name in order;
      var i :| 0 <= i < |order| && order[i] == name;
      assert items[i].id == fields[name].id;
    }
  }

  // ----- Schema growth -----

  ghost predicate Extends(byID': ById, byID: ById) {
    forall id :: id in byID ==> id in byID' && byID'[id] == byID[id]
  }

  /** Any bytes that an older schema decodes, a later one decodes the same. */
  lemma {:induction false} GrowthKeepsDecoding(byID: ById, byID': ById, b: seq<byte>, m: map<string, FieldValue>)
    requires Extends(byID', byID) && Parse(byID, b).Items?
    ensures Parse(byID', b) == Parse(byID, b)
    ensures Names(byID, ToMap(Parse(byID, b).items), m) ==> Names(byID', ToMap(Parse(byID, b).items), m)
    decreases |b|
  {
    SameParse(byID, byID', b);
    ParsesShort(byID, b);
    var items := Parse(byID, b).items;
    ToMapHas(items);
    hide Parse, ToMap;
    forall id | id in ToMap(items) ensures id in byID && byID'[id] == byID[id] {
      var i :| 0 <= i < |items| && items[i].id == id;
    }
  }

  lemma {:induction false} SameParse(byID: ById, byID': ById, b: seq<byte>)
    requires Extends(byID', byID) && Parse(byID, b).Items?
    ensures Parse(byID', b) == Parse(byID, b)
    decreases |b|
  {
    hide ReadValue;
    if b != [] {
      SameParse(byID, byID', b[ReadValue(byID[b[0]].typ, b).size..]);
    }
  }

  // ----- The code -----

  datatype Codec = Codec(fieldsByID: ById, fieldsByName: ByName)

  predicate Named(fields: ByName) {
    forall k :: k in fields ==> fields[k].name == k
  }

  /** No two fields with one id. */
  ghost predicate DistinctFields(fields: ByName) {
    forall k, k' :: k in fields && k' in fields && fields[k].id == fields[k'].id ==> k == k'
  }

  /** Each id in use has one of the fields with this id. */
  ghost predicate Keyed(fields: ByName, byID: ById) {
    && (forall k :: k in fields ==> fields[k].id in byID)
    && forall id :: id in byID ==> byID[id].id == id && byID[id].name in fields && fields[byID[id].name] == byID[id]
  }

  lemma KeyedIsCoded(fields: ByName, byID: ById)
    requires Named(fields) && Keyed(fields, byID)
    ensures Coded(fields, byID) <==> DistinctFields(fields)
  {
    if DistinctFields(fields) {
      forall k | k in fields ensures byID[fields[k].id] == fields[k] {
        assert fields[byID[fields[k].id].name] == byID[fields[k].id];
      }
    }
  }

  /** `NewFieldCodec`, over the fields in whatever order the map gives them; of fields with one id the last is kept. */
  method NewFieldCodec(fields: ByName) returns (c: Codec)
    requires Named(fields)
    ensures c.fieldsByName == fields && Keyed(fields, c.fieldsByID)
    ensures Coded(fields, c.fieldsByID) <==> DistinctFields(fields)
  {
    var byID: ById, byName: ByName := map[], map[];
    var todo := fields.Keys;
    while todo != {}
      invariant todo <= fields.Keys
      invariant forall k :: k in byName <==> k in fields && k !in todo
      invariant forall k :: k in byName ==> byName[k] == fields[k] && fields[k].id in byID
      invariant forall id :: id in byID ==> byID[id].id == id && byID[id].name in byName && fields[byID[id].name] == byID[id]
      decreases |todo|
    {
      var k :| k in todo;
      var f := fields[k];
      byID := byID[f.id := f];
      byName := byName[f.name := f];
      todo := todo - {k};
    }
    KeyedIsCoded(fields, byID);
    return Codec(byID, byName);
  }

  datatype Encoded = Bytes(b: seq<byte>) | TypeMismatch(name: string) | MissingField(name: string)

  method PutValue(id: byte, v: FieldValue) returns (buf: seq<byte>)
    requires InRange(v)
    ensures buf == EncodeOne(id, v)
  {
    match v
    case Float64(bits) => return [id] + BigEndian(bits, 8);
    case Int64(i) => return [id] + BigEndian(Unsigned(i), 8);
    case Flag(b) => return [id] + [if b then 1 else 0];
    case Text(s) =>
      var value := s;
      if |value| > MAX_STRING_LENGTH {
        value := value[..MAX_STRING_LENGTH];
      }
      return [id] + (BigEndian(|value| % TWO_16, 2) + value);
  }

  lemma {:induction false} EncodingSnoc(byName: ByName, values: map<string, FieldValue>, order: seq<string>, k: string)
    requires forall x :: x in order + [k] ==> x in byName && x in values && InRange(values[x])
    ensures (forall x :: x in order ==> x in order + [k]) && k in order + [k]
    ensures Encoding(byName, values, order + [k]) == Encoding(byName, values, order) + EncodeOne(byName[k].id, values[k])
  {
    assert k in order + [k];
    assert forall x :: x in order ==> x in order + [k];
    hide EncodeOne, InRange;
    if order == [] {
      assert order + [k] == [k];
      assert [k][1..] == [];
      assert Encoding(byName, values, [k]) == EncodeOne(byName[k].id, values[k]) + [];
    } else {
      assert (order + [k])[1..] == order[1..] + [k];
      EncodingSnoc(byName, values, order[1..], k);
      Assoc(EncodeOne(byName[order[0]].id, values[order[0]]), Encoding(byName, values, order[1..]), EncodeOne(byName[k].id, values[k]));
    }
  }

  /** `EncodeFields`: every value must have a field of its type; the order of the result is the map's. */
  method EncodeFields(c: Codec, values: map<string, FieldValue>) returns (r: Encoded, ghost order: seq<string>)
    requires forall k :: k in values ==> InRange(values[k])
    ensures r.Bytes? <==> Fits(c.fieldsByName, values)
    ensures r.Bytes? ==> Enumerates(order, values.Keys) && r.b == Encoding(c.fieldsByName, values, order)
  {
    hide EncodeOne, InRange;
    var b: seq<byte> := [];
    order := [];
    var todo := values.Keys;
    while todo != {}
      invariant todo <= values.Keys && Enumerates(order, values.Keys - todo)
      invariant forall k :: k in order ==> k in values && k in c.fieldsByName && TypeOf(values[k]) == c.fieldsByName[k].typ && InRange(values[k])
      invariant b == Encoding(c.fieldsByName, values, order)
      decreases |todo|
    {
      var k :| k in todo;
      var v := values[k];
      if k !in c.fieldsByName {
        return MissingField(k), order;
      } else if TypeOf(v) != c.fieldsByName[k].typ {
        return TypeMismatch(k), order;
      }
      EncodingSnoc(c.fieldsByName, values, order, k);
      var buf := PutValue(c.fieldsByName[k].id, v);
      b := b + buf;
      order := order + [k];
      todo := todo - {k};
    }
    return Bytes(b), order;
  }

  datatype Decoded = FieldMap(m: map<byte, FieldValue>) | Unmapped | Panicked

  /** What decoding has found so far, and what is left to parse. */
  ghost predicate DecodedSoFar(byID: ById, all: seq<byte>, done: seq<Item>, b: seq<byte>) {
    Parse(byID, all) == (var rest := Parse(byID, b); if rest.Items? then Items(done + rest.items) else rest)
  }

  lemma DecodeStep(byID: ById, all: seq<byte>, done: seq<Item>, b: seq<byte>, item: Item, size: nat)
    requires b != [] && b[0] in byID && DecodedSoFar(byID, all, done, b)
    requires ReadValue(byID[b[0]].typ, b) == Got(item.value, size) && item.id == b[0]
    ensures size <= |b| && DecodedSoFar(byID, all, done + [item], b[size..])
  {
    hide ReadValue;
    var rest := Parse(byID, b[size..]);
    if rest.Items? {
      Assoc(done, [item], rest.items);
    }
  }

  /** `DecodeFields`. */
  method DecodeFields(byID: ById, all: seq<byte>) returns (r: Decoded)
    ensures match Parse(byID, all)
            case Items(items) => r == FieldMap(ToMap(items))
            case UnmappedID => r == Unmapped
            case Panics => r == Panicked
  {
    var values: map<byte, FieldValue> := map[];
    var b := all;
    ghost var done: seq<Item> := [];
    assert forall items: seq<Item> :: [] + items == items;
    while |b| > 0
      invariant DecodedSoFar(byID, all, done, b) && values == ToMap(done)
      decreases |b|
    {
      hide ToMap;
      var fieldID := b[0];
      if fieldID !in byID {
        return Unmapped;
      }
      var v := ReadValue(byID[fieldID].typ, b);
      hide ReadValue;
      if v.OutOfRange? {
        return Panicked;
      }
      DecodeStep(byID, all, done, b, Item(fieldID, v.value), v.size);
      ToMapSnoc(done, Item(fieldID, v.value));
      hide DecodedSoFar;
      values := values[fieldID := v.value];
      b := b[v.size..];
      done := done + [Item(fieldID, v.value)];
    }
    assert done + [] == done;
    return FieldMap(values);
  }

  lemma ToMapSnoc(items: seq<Item>, x: Item)
    ensures ToMap(items + [x]) == ToMap(items)[x.id := x.value]
  {
    assert (items + [x])[..|items|] == items;
  }

  /** `DecodeFieldsWithNames`. */
  method DecodeFieldsWithNames(fields: ByName, byID: ById, b: seq<byte>) returns (r: Option<map<string, FieldValue>>)
    requires Coded(fields, byID)
    ensures r.Some? <==> Parse(byID, b).Items?
    ensures r.Some? ==> Names(byID, ToMap(Parse(byID, b).items), r.value)
  {
    var d := DecodeFields(byID, b);
    if !d.FieldMap? {
      return None;
    }
    hide Parse, ToMap;
    var m: map<string, FieldValue> := map[];
    var todo := d.m.Keys;
    while todo != {}
      invariant todo <= d.m.Keys
      invariant forall id :: id in d.m && id !in todo && id in byID ==> byID[id].name in m && m[byID[id].name] == d.m[id]
      invariant forall k :: k in m ==> exists id :: id in d.m && id !in todo && id in byID && byID[id].name == k
      decreases |todo|
    {
      var id :| id in todo;
      if id in byID {
        m := m[byID[id].name := d.m[id]];
      }
      todo := todo - {id};
    }
    return Some(m);
  }

  /** A point encoded and decoded again is the same point if and only if no string is longer than 65,532 bytes. */
  method WriteThenRead(c: Codec, values: map<string, FieldValue>) returns (r: Option<map<string, FieldValue>>)
    requires Coded(c.fieldsByName, c.fieldsByID) && Fits(c.fieldsByName, values)
    ensures r == Some(values) <==> forall k :: k in values ==> Short(values[k])
  {
    hide Coded, Short, InRange, Names, ToMap, Parse, Encoding;
    var e, order := EncodeFields(c, values);
    r := DecodeFieldsWithNames(c.fieldsByName, c.fieldsByID, e.b);
    RoundTripExact(c.fieldsByName, c.fieldsByID, values, order);
    if r.Some? && Names(c.fieldsByID, ToMap(Parse(c.fieldsByID, e.b).items), values) {
      NamesUnique(c.fieldsByID, ToMap(Parse(c.fieldsByID, e.b).items), values, r.value);
    }
  }

  /** Any point decoded from any bytes is the same after encoding and decoding it again. */
  method ReadThenWrite(c: Codec, b: seq<byte>) returns (m: Option<map<string, FieldValue>>, again: Option<map<string, FieldValue>>)
    requires Coded(c.fieldsByName, c.fieldsByID)
    ensures m.Some? <==> Parse(c.fieldsByID, b).Items?
    ensures m.Some? ==> again == m
  {
    hide Coded, Short, Fits, Names, ToMap, Parse;
    m := DecodeFieldsWithNames(c.fieldsByName, c.fieldsByID, b);
    again := None;
    if m.Some? {
      DecodedFits(c.fieldsByName, c.fieldsByID, b, m.value);
      again := WriteThenRead(c, m.value);
    }
  }

  /** `DecodeByName`, which scans for the field's id. */
  method DecodeByName(c: Codec, name: string, all: seq<byte>) returns (r: Scanned)
    ensures r == if name in c.fieldsByName then Scan(c.fieldsByID, c.fieldsByName[name].id, all) else FieldNotFound
  {
    if name !in c.fieldsByName {
      return FieldNotFound;
    }
    var target := c.fieldsByName[name].id;
    var b := all;
    while |b| > 0
      invariant Scan(c.fieldsByID, target, all) == Scan(c.fieldsByID, target, b)
      decreases |b|
    {
      if b[0] !in c.fieldsByID {
        return FieldUnmappedID;
      }
      var field := c.fieldsByID[b[0]];
      var v := ReadValue(field.typ, b);
      hide ReadValue;
      if v.OutOfRange? {
        return ScanPanics;
      }
      if field.id == target {
        return Found(v.value);
      }
      b := b[v.size..];
    }
    return FieldNotFound;
  }

  datatype SchemaError = FieldTypeConflict | FieldOverflow

  const MAX_UINT8: int := 255

  /** Fields were made in this order, each under the next number, in eight bits. */
  ghost predicate Issued(fields: ByName, order: seq<string>) {
    && Enumerates(order, fields.Keys) && |order| == |fields|
    && forall i :: 0 <= i < |order| ==> Numbered(fields, order[i], i)
  }

  predicate Numbered(fields: ByName, name: string, i: nat) {
    name in fields && fields[name].id == (i + 1) % 256
  }

  ghost predicate Schema(fields: ByName, codec: Codec, order: seq<string>) {
    Named(fields) && Issued(fields, order) && codec.fieldsByName == fields && Keyed(fields, codec.fieldsByID)
  }

  function WithField(fields: ByName, name: string, typ: DataType): ByName {
    fields[name := Field((|fields| + 1) % 256, name, typ)]
  }

  /** The fields are numbered from one, in the order they came, up to 255. */
  lemma NumberedFromOne(fields: ByName, order: seq<string>, i: nat)
    requires Issued(fields, order) && i < |order| && i < 255
    ensures order[i] in fields && fields[order[i]].id == i + 1
  {
    assert Numbered(fields, order[i], i);
  }

  /** The ids of a schema differ if and only if there are at most 256 fields: the next one has the first one's id. */
  lemma IdsDistinctExact(fields: ByName, order: seq<string>)
    requires Issued(fields, order)
    ensures DistinctFields(fields) <==> |fields| <= 256
  {
    if |fields| <= 256 {
      forall k, k' | k in fields && k' in fields && fields[k].id == fields[k'].id ensures k == k' {
        var i := PlaceOf(fields, order, k);
        var j := PlaceOf(fields, order, k');
      }
    } else {
      assert Numbered(fields, order[0], 0) && Numbered(fields, order[256], 256) && order[0] != order[256];
    }
  }

  lemma PlaceOf(fields: ByName, order: seq<string>, k: string) returns (i: nat)
    requires Issued(fields, order) && k in fields
    ensures i < |order| && order[i] == k && fields[k].id == (i + 1) % 256
  {
    assert k in fields.Keys && k in order;
    i :| 0 <= i < |order| && order[i] == k;
    assert Numbered(fields, order[i], i);
  }

  /** So the codec of a schema decodes what it encodes, by name, if and only if there are at most 256 fields. */
  lemma SchemaCodedExact(fields: ByName, codec: Codec, order: seq<string>)
    requires Schema(fields, codec, order)
    ensures Coded(fields, codec.fieldsByID) <==> |fields| <= 256
  {
    hide Named, Keyed, Coded, DistinctFields, Issued;
    IdsDistinctExact(fields, order);
    KeyedIsCoded(fields, codec.fieldsByID);
  }

  /** A field under the next id, and the codec for it. */
  method AddField(fields: ByName, codec: Codec, name: string, typ: DataType, ghost order: seq<string>) returns (fields': ByName, codec': Codec)
    requires Schema(fields, codec, order) && name !in fields
    ensures fields' == WithField(fields, name, typ) && Schema(fields', codec', order + [name])
    ensures |fields'| <= 256 ==> Extends(codec'.fieldsByID, codec.fieldsByID)
  {
    GrownFields(fields, name, typ);
    GrownIssued(fields, name, typ, order);
    fields' := fields[name := Field((|fields| + 1) % 256, name, typ)];
    codec' := NewFieldCodec(fields');
    hide DistinctFields, Coded, Extends, Issued, Keyed, Named;
    SchemaCodedExact(fields, codec, order);
    SchemaCodedExact(fields', codec', order + [name]);
    if |fields'| <= 256 {
      GrownExtends(fields, codec.fieldsByID, fields', codec'.fieldsByID);
    }
  }

  /** The fields of a measurement, which only grow. */
  class MeasurementFields {
    var fields: ByName
    var codec: Codec
    ghost var order: seq<string>

    ghost predicate Valid()
      reads this
    {
      Schema(fields, codec, order)
    }

    constructor ()
      ensures Valid() && fields == map[]
    {
      fields, codec, order := map[], Codec(map[], map[]), [];
    }

    /**
     `CreateFieldIfNotExists`: ids are given out in order, and up to 256 fields codecs
     made later go on decoding what earlier ones decoded.
     */
    method CreateFieldIfNotExists(name: string, typ: DataType, limitCount: bool) returns (err: Option<SchemaError>)
      requires Valid()
      modifies this
      ensures Valid()
      ensures |fields| <= 256 ==> Coded(fields, codec.fieldsByID) && Extends(codec.fieldsByID, old(codec.fieldsByID))
      ensures err == Some(FieldTypeConflict) <==> name in old(fields) && old(fields)[name].typ != typ
      ensures err == Some(FieldOverflow) <==> name !in old(fields) && |old(fields)| >= MAX_UINT8 && limitCount
      ensures fields == if err.None? && name !in old(fields) then WithField(old(fields), name, typ) else old(fields)
      ensures order == if err.None? && name !in old(fields) then old(order) + [name] else old(order)
    {
      hide Schema, Coded, WithField;
      SchemaCodedExact(fields, codec, order);
      if name in fields {
        if fields[name].typ != typ {
          return Some(FieldTypeConflict);
        }
        return None;
      }
      if |fields| + 1 > MAX_UINT8 && limitCount {
        return Some(FieldOverflow);
      }
      var fields', codec' := AddField(fields, codec, name, typ, order);
      fields, codec, order := fields', codec', order + [name];
      SchemaCodedExact(fields, codec, order);
      return None;
    }
  }

  lemma GrownFields(fields: ByName, name: string, typ: DataType)
    requires Named(fields) && name !in fields
    ensures forall k :: k in fields ==> k in WithField(fields, name, typ) && WithField(fields, name, typ)[k] == fields[k]
    ensures |WithField(fields, name, typ)| == |fields| + 1
    ensures Named(WithField(fields, name, typ)) && WithField(fields, name, typ).Keys == fields.Keys + {name}
    ensures Numbered(WithField(fields, name, typ), name, |fields|)
  {
  }

  lemma GrownIssued(fields: ByName, name: string, typ: DataType, order: seq<string>)
    requires Named(fields) && Issued(fields, order) && name !in fields
    ensures Issued(WithField(fields, name, typ), order + [name])
  {
    hide *;
    GrownFields(fields, name, typ);
    IssuedNext(fields, WithField(fields, name, typ), name, order);
  }

  lemma IssuedNext(fields: ByName, fields': ByName, name: string, order: seq<string>)
    requires Issued(fields, order) && name !in fields && fields'.Keys == fields.Keys + {name} && |fields'| == |fields| + 1
    requires forall k :: k in fields ==> k in fields' && fields'[k] == fields[k]
    requires Numbered(fields', name, |fields|)
    ensures Issued(fields', order + [name])
  {
    hide Enumerates, Numbered;
    EnumeratesSnoc(order, fields.Keys, name);
    forall i | 0 <= i < |order + [name]| ensures Numbered(fields', (order + [name])[i], i) {
      NumberedNext(fields, fields', name, order, i);
    }
  }

  lemma NumberedNext(fields: ByName, fields': ByName, name: string, order: seq<string>, i: nat)
    requires i <= |order| && (i < |order| ==> Numbered(fields, order[i], i)) && Numbered(fields', name, |order|)
    requires forall k :: k in fields ==> k in fields' && fields'[k] == fields[k]
    ensures Numbered(fields', (order + [name])[i], i)
  {
    hide *;
    if i < |order| {
      StaysNumbered(fields, fields', order[i], i);
    }
  }

  lemma StaysNumbered(fields: ByName, fields': ByName, name: string, i: nat)
    requires Numbered(fields, name, i) && forall k :: k in fields ==> k in fields' && fields'[k] == fields[k]
    ensures Numbered(fields', name, i)
  {
  }

  lemma EnumeratesSnoc(order: seq<string>, keys: set<string>, name: string)
    requires Enumerates(order, keys) && name !in keys
    ensures Enumerates(order + [name], keys + {name})
  {
    forall i, j | 0 <= i < j < |order + [name]| ensures (order + [name])[i] != (order + [name])[j] {
      assert order[i] in order;
    }
  }

  lemma GrownExtends(fields: ByName, byID: ById, fields': ByName, byID': ById)
    requires Coded(fields, byID) && Coded(fields', byID')
    requires forall k :: k in fields ==> k in fields' && fields'[k] == fields[k]
    ensures Extends(byID', byID)
  {
    forall id | id in byID ensures id in byID' && byID'[id] == byID[id] {
      var k := byID[id].name;
      assert k in fields && fields'[k] == fields[k];
    }
  }
}
