/**
 Values of every wire type, written out independently of the readers: whatever a newer program may put
 in a field, nested as it likes, is passed over to its last byte.
 */
module ThriftValues {
  import opened Bytes
  import opened ThriftSpec
  import opened ThriftStructs
  import opened ThriftLaws

  /** A value on the wire. The items of a map are its keys and values in turn. */
  datatype WireValue =
    | WBool(x: Byte)
    | WByte(x: Byte)
    | WI16(i: int)
    | WI32(i: int)
    | WI64(i: int)
    | WDouble(bits: nat)
    | WString(s: seq<Byte>)
    | WStruct(fields: seq<WireField>)
    | WMap(keyType: Byte, valType: Byte, items: seq<WireValue>)
    | WSet(elemType: Byte, items: seq<WireValue>)
    | WList(elemType: Byte, items: seq<WireValue>)

  datatype WireField = WireField(id: int, value: WireValue)

  /** The numbers of TType. */
  function TypeOf(v: WireValue): Byte {
    match v
    case WBool(_) => 2
    case WByte(_) => 3
    case WDouble(_) => 4
    case WI16(_) => 6
    case WI32(_) => 8
    case WI64(_) => 10
    case WString(_) => 11
    case WStruct(_) => 12
    case WMap(_, _, _) => 13
    case WSet(_, _) => 14
    case WList(_, _) => 15
  }

  /** Numbers within their width, and containers whose items have the declared types. */
  predicate Valid(v: WireValue)
    decreases v, 0
  {
    match v
    case WBool(_) => true
    case WByte(_) => true
    case WI16(i) => -0x8000 <= i < 0x8000
    case WI32(i) => -0x8000_0000 <= i < 0x8000_0000
    case WI64(i) => -0x8000_0000_0000_0000 <= i < 0x8000_0000_0000_0000
    case WDouble(bits) => bits < 0x1_0000_0000_0000_0000
    case WString(s) => |s| < 0x8000_0000
    case WStruct(fields) => ValidFields(fields)
    case WMap(k, x, items) => |items| % 2 == 0 && |items| / 2 < 0x8000_0000 && ValidItems([k, x], items)
    case WSet(e, items) => |items| < 0x8000_0000 && ValidItems([e], items)
    case WList(e, items) => |items| < 0x8000_0000 && ValidItems([e], items)
  }

  /** The items have the types of the list, over and over. */
  predicate ValidItems(types: seq<Byte>, items: seq<WireValue>)
    requires types != []
    decreases items, 1
  {
    items != [] ==>
      TypeOf(items[0]) == types[0] && Valid(items[0]) && ValidItems(types[1..] + [types[0]], items[1..])
  }

  predicate ValidFields(fields: seq<WireField>)
    decreases fields, 1
  {
    fields != [] ==> ValidField(fields[0]) && ValidFields(fields[1..])
  }

  predicate ValidField(f: WireField)
    decreases f, 1
  {
    -0x8000 <= f.id < 0x8000 && Valid(f.value)
  }

  /** n bytes, most significant first; negative numbers in two's complement. */
  function BigEndian(n: nat, x: int): (r: seq<Byte>)
    ensures |r| == n
  {
    if n == 0 then [] else BigEndian(n - 1, (x - x % 256) / 256) + [x % 256]
  }

  function EncodeValue(v: WireValue): seq<Byte>
    decreases v, 0
  {
    match v
    case WBool(x) => [x]
    case WByte(x) => [x]
    case WI16(i) => BigEndian(2, i)
    case WI32(i) => BigEndian(4, i)
    case WI64(i) => BigEndian(8, i)
    case WDouble(bits) => BigEndian(8, bits)
    case WString(s) => BigEndian(4, |s|) + s
    case WStruct(fields) => EncodeFields(fields) + [0]
    case WMap(k, x, items) => [k, x] + BigEndian(4, |items| / 2) + EncodeItems(items)
    case WSet(e, items) => [e] + BigEndian(4, |items|) + EncodeItems(items)
    case WList(e, items) => [e] + BigEndian(4, |items|) + EncodeItems(items)
  }

  function EncodeItems(items: seq<WireValue>): seq<Byte>
    decreases items, 1
  {
    if items == [] then [] else EncodeValue(items[0]) + EncodeItems(items[1..])
  }

  function EncodeFields(fields: seq<WireField>): seq<Byte>
    decreases fields, 1
  {
    if fields == [] then [] else EncodeField(fields[0]) + EncodeFields(fields[1..])
  }

  function EncodeField(f: WireField): seq<Byte>
    decreases f, 1
  {
    [TypeOf(f.value)] + BigEndian(2, f.id) + EncodeValue(f.value)
  }

  // ---------- Numbers ----------

  lemma {:induction false} BigEndianNumber(n: nat, x: int)
    ensures x >= 0 ==> BigEndian(n, x) == BE(n, x)
    ensures BigEndian(n, x + Pow256(n)) == BigEndian(n, x)
    decreases n
  {
    if n > 0 {
      var y := (x - x % 256) / 256;
      BigEndianNumber(n - 1, y);
      Carry(x, Pow256(n - 1));
    }
  }

  lemma Carry(x: int, p: nat)
    ensures (x + 256 * p) % 256 == x % 256
    ensures (x + 256 * p - (x + 256 * p) % 256) / 256 == (x - x % 256) / 256 + p
    ensures x >= 0 ==> (x - x % 256) / 256 == x / 256
  {
    ModShift(x, p);
  }

  lemma ModShift(x: int, p: nat)
    ensures (x + 256 * p) % 256 == x % 256
  {
  }

  /** Numbers are written as WriteInt writes them. */
  lemma NumberWritten(n: nat, x: int)
    requires InRange(n, x)
    ensures BigEndian(n, x) == WriteInt(n, x)
  {
    BigEndianNumber(n, x);
    BigEndianNumber(n, Unsigned(n, x));
  }

  lemma NumberRead(n: nat, x: int, rest: seq<Byte>)
    requires InRange(n, x)
    ensures ReadInt(n, BigEndian(n, x) + rest) == Ok(x, rest)
  {
    NumberWritten(n, x);
    IntRoundTrip(n, x, rest);
  }

  // ---------- Passing over values ----------

  lemma DropAll(n: nat, s: seq<Byte>, rest: seq<Byte>)
    requires |s| == n
    ensures Drop(n, s + rest) == Ok((), rest)
  {
    assert (s + rest)[n..] == rest;
  }

  /** Whatever the value, skip() goes over exactly its bytes. */
  lemma {:induction false} ValueSkipped(v: WireValue, rest: seq<Byte>)
    requires Valid(v)
    ensures Skip(TypeOf(v), EncodeValue(v) + rest) == Ok((), rest)
    decreases v, 0
  {
    match v {
      case WBool(x) => DropAll(1, [x], rest);
      case WByte(x) => DropAll(1, [x], rest);
      case WI16(i) => DropAll(2, BigEndian(2, i), rest);
      case WI32(i) => DropAll(4, BigEndian(4, i), rest);
      case WI64(i) => DropAll(8, BigEndian(8, i), rest);
      case WDouble(bits) => DropAll(8, BigEndian(8, bits), rest);
      case WString(s) => StringSkipped(s, rest);
      case WStruct(fields) => FieldsSkipped(fields, rest); StructSkipped(fields, rest);
      case WMap(k, x, items) => ItemsSkipped([k, x], items, rest); MapSkipped(k, x, items, rest);
      case WSet(e, items) => ItemsSkipped([e], items, rest); ListSkipped(T_SET, e, items, rest);
      case WList(e, items) => ItemsSkipped([e], items, rest); ListSkipped(T_LIST, e, items, rest);
    }
  }

  lemma StringSkipped(s: seq<Byte>, rest: seq<Byte>)
    requires |s| < 0x8000_0000
    ensures Skip(T_STRING, EncodeValue(WString(s)) + rest) == Ok((), rest)
  {
    Pow256Four();
    NumberWritten(4, |s|);
    StringRoundTrip(s, rest);
    hide ReadString, BigEndian, WriteInt;
  }

  lemma StructSkipped(fields: seq<WireField>, rest: seq<Byte>)
    requires SkipFields(EncodeFields(fields) + [0] + rest) == Ok((), rest)
    ensures Skip(T_STRUCT, EncodeValue(WStruct(fields)) + rest) == Ok((), rest)
  {
    hide SkipFields, EncodeFields;
  }

  lemma MapSkipped(k: Byte, x: Byte, items: seq<WireValue>, rest: seq<Byte>)
    requires |items| % 2 == 0 && |items| / 2 < 0x8000_0000
    requires SkipItems([k, x], |items|, EncodeItems(items) + rest) == Ok((), rest)
    ensures Skip(T_MAP, EncodeValue(WMap(k, x, items)) + rest) == Ok((), rest)
  {
    hide SkipItems, EncodeItems, BigEndian, ReadInt;
    Pow256Four();
    var body := BigEndian(4, |items| / 2) + (EncodeItems(items) + rest);
    NumberRead(4, |items| / 2, EncodeItems(items) + rest);
    assert [k, x] + BigEndian(4, |items| / 2) + EncodeItems(items) + rest == [k, x] + body;
    PairsSkipped(k, x, body);
  }

  lemma PairsSkipped(k: Byte, x: Byte, body: seq<Byte>)
    requires ReadInt(4, body).Ok? && ReadInt(4, body).value >= 0
    ensures Skip(T_MAP, [k, x] + body) == SkipItems([k, x], 2 * ReadInt(4, body).value, ReadInt(4, body).rest)
  {
    hide SkipItems, ReadInt;
    var s := [k, x] + body;
    assert s[2..] == body;
    assert [s[0], s[1]] == [k, x];
  }

  lemma ListSkipped(ty: Byte, e: Byte, items: seq<WireValue>, rest: seq<Byte>)
    requires (ty == T_SET || ty == T_LIST) && |items| < 0x8000_0000
    requires SkipItems([e], |items|, EncodeItems(items) + rest) == Ok((), rest)
    ensures Skip(ty, [e] + BigEndian(4, |items|) + EncodeItems(items) + rest) == Ok((), rest)
  {
    hide SkipItems, EncodeItems, BigEndian, ReadInt;
    Pow256Four();
    var body := BigEndian(4, |items|) + (EncodeItems(items) + rest);
    NumberRead(4, |items|, EncodeItems(items) + rest);
    assert [e] + BigEndian(4, |items|) + EncodeItems(items) + rest == [e] + body;
    CountedSkipped(ty, e, body);
  }

  lemma CountedSkipped(ty: Byte, e: Byte, body: seq<Byte>)
    requires (ty == T_SET || ty == T_LIST) && ReadInt(4, body).Ok? && ReadInt(4, body).value >= 0
    ensures Skip(ty, [e] + body) == SkipItems([e], ReadInt(4, body).value, ReadInt(4, body).rest)
  {
    hide SkipItems, ReadInt;
    assert ([e] + body)[1..] == body;
    assert [([e] + body)[0]] == [e];
  }

  lemma {:induction false} ItemsSkipped(types: seq<Byte>, items: seq<WireValue>, rest: seq<Byte>)
    requires types != [] && ValidItems(types, items)
    ensures SkipItems(types, |items|, EncodeItems(items) + rest) == Ok((), rest)
    decreases items, 1
  {
    hide Skip, EncodeValue, Valid;
    if items == [] {
      assert [] + rest == rest;
    } else {
      var tail := EncodeItems(items[1..]) + rest;
      assert EncodeItems(items) + rest == EncodeValue(items[0]) + tail;
      ValueSkipped(items[0], tail);
      ItemsSkipped(types[1..] + [types[0]], items[1..], rest);
    }
  }

  lemma {:induction false} FieldsSkipped(fields: seq<WireField>, rest: seq<Byte>)
    requires ValidFields(fields)
    ensures SkipFields(EncodeFields(fields) + [0] + rest) == Ok((), rest)
    decreases fields, 1
  {
    hide Skip, EncodeField, ValidField;
    if fields == [] {
      var s := [] + [0] + rest;
      assert s[0] == T_STOP && s[1..] == rest;
    } else {
      var tail := EncodeFields(fields[1..]) + [0] + rest;
      assert EncodeFields(fields) + [0] + rest == EncodeField(fields[0]) + tail;
      FieldSkipped(fields[0], tail);
      FieldsSkipped(fields[1..], rest);
    }
  }

  lemma {:induction false} FieldSkipped(f: WireField, tail: seq<Byte>)
    requires ValidField(f)
    ensures SkipFields(EncodeField(f) + tail) == SkipFields(tail)
    decreases f, 1
  {
    ValueSkipped(f.value, tail);
    FieldParts(f, tail);
    hide Skip, EncodeField, EncodeValue, Valid, TypeOf;
  }

  lemma FieldParts(f: WireField, tail: seq<Byte>)
    ensures var s := EncodeField(f) + tail;
            |s| >= 3 && s[0] == TypeOf(f.value) != 0 && s[3..] == EncodeValue(f.value) + tail
  {
    hide EncodeValue, BigEndian;
  }

  // ---------- Foreign fields ----------

  /** The wire types of the fields, in the order of their numbers. */
  function TypesOf(schema: Schema): seq<Byte> {
    seq(|schema|, i requires 0 <= i < |schema| => Code(schema[i]))
  }

  /** A field with any value: its number is none of the struct's, or its type is not that of the field. */
  ghost predicate Foreign(schema: Schema, f: Field) {
    && (1 <= f.id <= |schema| ==> f.ty != TypesOf(schema)[f.id - 1])
    && exists v: WireValue :: Valid(v) && f.ty == TypeOf(v) && f.payload == EncodeValue(v)
  }

  lemma ForeignNotTaken(schema: Schema, f: Field)
    requires Foreign(schema, f)
    ensures !Taken(schema, f)
  {
    hide EncodeValue, Valid, Code;
  }

  lemma ForeignIsGood(schema: Schema, f: Field)
    requires Foreign(schema, f)
    ensures GoodField(schema, f)
  {
    hide Skip, EncodeValue, Valid, ReadValue, TypesOf, Taken;
    ForeignNotTaken(schema, f);
    var v: WireValue :| Valid(v) && f.ty == TypeOf(v) && f.payload == EncodeValue(v);
    ValueSkipped(v, []);
    assert EncodeValue(v) + [] == EncodeValue(v);
  }

  /** One foreign field is passed over. */
  lemma ForeignSkipped(schema: Schema, slots: seq<Slot>, f: Field, tail: seq<Byte>)
    requires |slots| == |schema| && Foreign(schema, f)
    ensures ReadStruct(schema, slots, Encode(f) + tail) == ReadStruct(schema, slots, tail)
  {
    hide ReadStruct, Encode, GoodField, Foreign, ReadValue, Taken, TypesOf;
    ForeignNotTaken(schema, f);
    ForeignIsGood(schema, f);
    FieldRead(schema, slots, f, tail);
  }

  /**
   An object written, with foreign fields of any types added anywhere and its own fields in any order, is read
   back as it was.
   */
  lemma ForeignRoundTrip(schema: Schema, slots: seq<Slot>, prior: seq<Slot>, gs: seq<Field>, rest: seq<Byte>)
    requires Writable(schema, slots) && SizesFit(slots) && |prior| == |schema|
    requires forall f :: f in FieldsFrom(schema, slots, 0) ==> f in gs
    requires forall g :: g in gs ==> g in FieldsFrom(schema, slots, 0) || Foreign(schema, g)
    ensures ReadStruct(schema, prior, EncodeAll(gs) + rest) == Ok(AllSet(slots), rest)
  {
    WrittenStream(schema, slots);
    hide ReadStruct, EncodeAll, FieldsFrom, GoodField, Fits, SizeFits, WriteValue;
    forall g | g in gs
      ensures GoodField(schema, g)
    {
      if g !in FieldsFrom(schema, slots, 0) {
        ForeignIsGood(schema, g);
      }
    }
    TolerantRoundTrip(schema, slots, prior, gs, rest);
  }

  // ---------- What the structs look like on the wire ----------

  /** The entries of a map under the given keys, as items. */
  function DictItems(m: Dict, keys: seq<seq<Byte>>): (r: seq<WireValue>)
    requires forall k :: k in keys ==> k in m
    ensures |r| == 2 * |keys|
  {
    if keys == [] then [] else [WString(keys[0]), WI32(m[keys[0]])] + DictItems(m, keys[1..])
  }

  /** The wire value of a field: a bool, an i32, an i64, a string, or a map from strings to i32 in key order. */
  ghost function WireOf(v: Value, k: Kind): WireValue
    requires HasKind(v, k)
  {
    match k
    case KBool => WBool(if v.b then 1 else 0)
    case KI32 => WI32(v.i)
    case KI64 => WI64(v.i)
    case KString => WString(v.s)
    case KMap => WMap(11, 8, DictItems(v.m, InOrder(v.m.Keys)))
  }

  lemma {:induction false} ItemsWritten(m: Dict, keys: seq<seq<Byte>>)
    requires forall k :: k in keys ==> EntryFits(m, k)
    ensures forall k :: k in keys ==> k in m
    ensures EncodeItems(DictItems(m, keys)) == WriteEntries(m, keys)
  {
    assert forall k :: k in keys ==> k in m;
    if keys != [] {
      var k := keys[0];
      assert EntryFits(m, k);
      ItemsWritten(m, keys[1..]);
      var rest := DictItems(m, keys[1..]);
      TwoItems(WString(k), WI32(m[k]), rest);
      EntryWritten(m, k);
    }
    hide EncodeItems, WriteEntry, EncodeValue;
  }

  lemma TwoItems(a: WireValue, b: WireValue, rest: seq<WireValue>)
    ensures EncodeItems([a, b] + rest) == EncodeValue(a) + EncodeValue(b) + EncodeItems(rest)
  {
    assert ([a, b] + rest)[1..] == [b] + rest;
    assert ([b] + rest)[1..] == rest;
    hide EncodeValue;
  }

  lemma EntryWritten(m: Dict, k: seq<Byte>)
    requires EntryFits(m, k)
    ensures EncodeValue(WString(k)) + EncodeValue(WI32(m[k])) == WriteEntry(m, k)
  {
    Pow256Four();
    NumberWritten(4, |k|);
    NumberWritten(4, m[k]);
    hide BigEndian, WriteInt;
  }

  lemma MapWritten(m: Dict)
    requires DictFits(m) && |m| < 0x8000_0000
    ensures EncodeValue(WireOf(VMap(m), KMap)) == WriteMap(m)
  {
    hide *;
    KeysKept(m);
    WrittenMap(m);
    var keys := InOrder(m.Keys);
    ItemsWritten(m, keys);
    MapParts(11, 8, DictItems(m, keys));
    SizeWritten(|m|);
  }

  lemma KeysKept(m: Dict)
    requires DictFits(m)
    ensures forall k :: k in InOrder(m.Keys) ==> EntryFits(m, k)
    ensures |InOrder(m.Keys)| == |m|
  {
    hide EntryFits, InOrder;
  }

  lemma WrittenMap(m: Dict)
    requires DictFits(m)
    ensures forall k :: k in InOrder(m.Keys) ==> k in m && EntryFits(m, k)
    ensures WireOf(VMap(m), KMap) == WMap(11, 8, DictItems(m, InOrder(m.Keys)))
    ensures WriteMap(m) == [11, 8] + WriteSize(|m|) + WriteEntries(m, InOrder(m.Keys))
  {
    hide EntryFits, InOrder, DictItems, WriteSize, WriteEntries;
  }

  lemma MapParts(k: Byte, x: Byte, items: seq<WireValue>)
    ensures EncodeValue(WMap(k, x, items)) == [k, x] + BigEndian(4, |items| / 2) + EncodeItems(items)
  {
    hide EncodeItems, BigEndian;
  }

  lemma SizeWritten(n: nat)
    requires n < 0x8000_0000
    ensures BigEndian(4, n) == WriteSize(n)
  {
    hide BE, BigEndian, Pow256;
    Pow256Four();
    NumberWritten(4, n);
    assert Unsigned(4, n) == n == n % 0x1_0000_0000;
  }

  lemma NumbersWritten(i: int, j: int, s: seq<Byte>)
    requires -0x8000_0000 <= i < 0x8000_0000 && -0x8000_0000_0000_0000 <= j < 0x8000_0000_0000_0000
    requires |s| < 0x8000_0000
    ensures InRange(4, i) && InRange(8, j) && Short(s)
    ensures EncodeValue(WI32(i)) == WriteInt(4, i) && EncodeValue(WI64(j)) == WriteInt(8, j)
    ensures EncodeValue(WString(s)) == WriteString(s)
  {
    Pow256Values();
    NumberWritten(4, i);
    NumberWritten(8, j);
    NumberWritten(4, |s|);
    hide BigEndian, WriteInt, Pow256;
  }

  lemma ValueWritten(k: Kind, v: Value)
    requires Fits(k, v) && SizeFits(v)
    ensures EncodeValue(WireOf(v, k)) == WriteValue(k, v) && TypeOf(WireOf(v, k)) == Code(k)
  {
    hide BigEndian, EncodeItems, DictItems, InOrder, WriteInt, WriteString, WriteMap, Pow256;
    Pow256Values();
    match k {
      case KBool =>
      case KI32 => NumbersWritten(v.i, 0, []);
      case KI64 => NumbersWritten(0, v.i, []);
      case KString => NumbersWritten(0, 0, v.s);
      case KMap => MapWritten(v.m);
    }
  }

  /** The fields of an object as wire fields, numbered from 1. */
  ghost function WireFields(schema: Schema, slots: seq<Slot>, i: nat): seq<WireField>
    requires Writable(schema, slots) && i <= |schema|
    decreases |schema| - i
  {
    if i == |schema| then []
    else [WireField(i + 1, WireOf(slots[i].value, schema[i]))] + WireFields(schema, slots, i + 1)
  }

  /** write() sends the fields in order, each with its type, its number and its value, and a zero byte. */
  lemma {:induction false} StructOnWire(schema: Schema, slots: seq<Slot>, i: nat)
    requires Writable(schema, slots) && SizesFit(slots) && i <= |schema|
    ensures EncodeAll(FieldsFrom(schema, slots, i)) == EncodeFields(WireFields(schema, slots, i)) + [0]
    ensures i == 0 ==> WriteStruct(schema, slots) == EncodeFields(WireFields(schema, slots, 0)) + [0]
    decreases |schema| - i
  {
    if i < |schema| {
      StructOnWire(schema, slots, i + 1);
      FieldOnWire(schema, slots, i);
      EncodedNext(schema, slots, i, []);
      var all, tail := EncodeAll(FieldsFrom(schema, slots, i)), EncodeAll(FieldsFrom(schema, slots, i + 1));
      assert all + [] == all && tail + [] == tail;
      var f := WireField(i + 1, WireOf(slots[i].value, schema[i]));
      assert ([f] + WireFields(schema, slots, i + 1))[1..] == WireFields(schema, slots, i + 1);
    }
    hide Encode, EncodeField, FieldOf, Fits, WireOf, SizeFits;
  }

  lemma FieldOnWire(schema: Schema, slots: seq<Slot>, i: nat)
    requires Writable(schema, slots) && i < |schema| && SizeFits(slots[i].value)
    ensures EncodeField(WireField(i + 1, WireOf(slots[i].value, schema[i]))) == Encode(FieldOf(schema, slots, i))
  {
    ValueWritten(schema[i], slots[i].value);
    Pow256Four();
    NumberWritten(2, i + 1);
    hide EncodeValue, WriteValue, WireOf, Fits, BigEndian, WriteInt, Code;
  }

  /** The wire types of the fields of the four structs, in the order of their numbers. */
  lemma StructTypes()
    ensures TypesOf(ARG_GET_DEFAULT_PRINTER) == [2, 11, 8]
    ensures TypesOf(ARG_ENUM_PRINTERS) == [2, 8, 11, 8, 11, 8, 8, 8, 13]
    ensures TypesOf(ARG_DOCUMENT_PROPERTIES) == [8, 10, 10, 11, 11, 11, 8, 8]
    ensures TypesOf(ARG_GET_PRINTER) == [2, 10, 8, 11, 8, 8, 13, 8]
  {
  }

  /** One struct on the wire, byte for byte: true, the string AB, and -2. */
  lemma DefaultPrinterBytes()
    ensures var slots := [Slot(VBool(true), true), Slot(VString([65, 66]), true), Slot(VInt(-2), true)];
            && Writable(ARG_GET_DEFAULT_PRINTER, slots)
            && WriteStruct(ARG_GET_DEFAULT_PRINTER, slots) ==
               [2, 0, 1, 1] + [11, 0, 2, 0, 0, 0, 2, 65, 66] + [8, 0, 3, 255, 255, 255, 254] + [0]
  {
    var slots := [Slot(VBool(true), true), Slot(VString([65, 66]), true), Slot(VInt(-2), true)];
    ExampleWritable();
    hide Writable, SizesFit, WriteStruct, EncodeFields, WireFields, EncodeAll, EncodeField, BigEndian;
    StructOnWire(ARG_GET_DEFAULT_PRINTER, slots, 0);
    ExampleFields();
    ExampleBytes();
    ThreeFields(WireField(1, WBool(1)), WireField(2, WString([65, 66])), WireField(3, WI32(-2)));
  }

  lemma ExampleWritable()
    ensures var slots := [Slot(VBool(true), true), Slot(VString([65, 66]), true), Slot(VInt(-2), true)];
            Writable(ARG_GET_DEFAULT_PRINTER, slots) && SizesFit(slots)
  {
    Pow256Four();
    hide Pow256;
  }

  lemma ExampleFields()
    requires var slots := [Slot(VBool(true), true), Slot(VString([65, 66]), true), Slot(VInt(-2), true)];
             Writable(ARG_GET_DEFAULT_PRINTER, slots)
    ensures var slots := [Slot(VBool(true), true), Slot(VString([65, 66]), true), Slot(VInt(-2), true)];
            WireFields(ARG_GET_DEFAULT_PRINTER, slots, 0) ==
            [WireField(1, WBool(1))] + ([WireField(2, WString([65, 66]))] + [WireField(3, WI32(-2))])
  {
    hide Writable;
    var schema := ARG_GET_DEFAULT_PRINTER;
    var slots := [Slot(VBool(true), true), Slot(VString([65, 66]), true), Slot(VInt(-2), true)];
    assert WireFields(schema, slots, 3) == [];
    assert WireFields(schema, slots, 2) == [WireField(3, WI32(-2))];
    assert WireFields(schema, slots, 1) == [WireField(2, WString([65, 66]))] + [WireField(3, WI32(-2))];
  }

  lemma ExampleBytes()
    ensures EncodeField(WireField(1, WBool(1))) == [2, 0, 1, 1]
    ensures EncodeField(WireField(2, WString([65, 66]))) == [11, 0, 2, 0, 0, 0, 2, 65, 66]
    ensures EncodeField(WireField(3, WI32(-2))) == [8, 0, 3, 255, 255, 255, 254]
  {
    SmallNumbers();
    hide BigEndian;
  }

  lemma ThreeFields(a: WireField, b: WireField, c: WireField)
    ensures EncodeFields([a] + ([b] + [c])) == EncodeField(a) + EncodeField(b) + EncodeField(c)
  {
    hide EncodeField;
    FieldsNext(a, [b] + [c]);
    FieldsNext(b, [c]);
    FieldsNext(c, []);
    assert [c] + [] == [c];
    hide EncodeFields;
  }

  lemma FieldsNext(f: WireField, rest: seq<WireField>)
    ensures EncodeFields([f] + rest) == EncodeField(f) + EncodeFields(rest)
    ensures EncodeFields([]) == []
  {
    hide EncodeField;
    assert ([f] + rest)[1..] == rest;
  }

  lemma SmallNumbers()
    ensures BigEndian(2, 1) == [0, 1] && BigEndian(2, 2) == [0, 2] && BigEndian(2, 3) == [0, 3]
    ensures BigEndian(4, 2) == [0, 0, 0, 2] && BigEndian(4, -2) == [255, 255, 255, 254]
  {
    assert BigEndian(1, 0) == [0] && BigEndian(1, -1) == [255];
    assert BigEndian(2, 0) == [0, 0] && BigEndian(2, -1) == [255, 255];
    assert BigEndian(3, 0) == [0, 0, 0] && BigEndian(3, -1) == [255, 255, 255];
  }

  // ---------- What the known kinds read ----------

  /** A bool is true for any byte but zero; numbers and strings are read as they were encoded. */
  lemma KnownRead(x: Byte, i: int, j: int, s: seq<Byte>, rest: seq<Byte>)
    requires -0x8000_0000 <= i < 0x8000_0000 && -0x8000_0000_0000_0000 <= j < 0x8000_0000_0000_0000
    requires |s| < 0x8000_0000
    ensures ReadValue(KBool, EncodeValue(WBool(x)) + rest) == Ok(VBool(x != 0), rest)
    ensures ReadValue(KI32, EncodeValue(WI32(i)) + rest) == Ok(VInt(i), rest)
    ensures ReadValue(KI64, EncodeValue(WI64(j)) + rest) == Ok(VInt(j), rest)
    ensures ReadValue(KString, EncodeValue(WString(s)) + rest) == Ok(VString(s), rest)
  {
    Pow256Values();
    assert ([x] + rest)[1..] == rest;
    NumberRead(4, i, rest);
    NumberRead(8, j, rest);
    Pow256Four();
    NumberWritten(4, |s|);
    StringRoundTrip(s, rest);
    hide ReadInt, ReadString, BigEndian, WriteInt;
  }

  // ---------- Maps as a foreign writer may send them ----------

  /** Keys and values in turn. */
  function PairItems(pairs: seq<(seq<Byte>, int)>): (r: seq<WireValue>)
    ensures |r| == 2 * |pairs|
  {
    if pairs == [] then [] else [WString(pairs[0].0), WI32(pairs[0].1)] + PairItems(pairs[1..])
  }

  predicate PairsFit(pairs: seq<(seq<Byte>, int)>) {
    forall i :: 0 <= i < |pairs| ==> |pairs[i].0| < 0x8000_0000 && -0x8000_0000 <= pairs[i].1 < 0x8000_0000
  }

  function Gathered(acc: Dict, pairs: seq<(seq<Byte>, int)>): Dict
    decreases pairs
  {
    if pairs == [] then acc else Gathered(acc[pairs[0].0 := pairs[0].1], pairs[1..])
  }

  /** Every key is there, in any order and however often it came, with the value that came last. */
  lemma {:induction false} GatheredMeans(acc: Dict, pairs: seq<(seq<Byte>, int)>)
    ensures forall k :: k in Gathered(acc, pairs) <==> k in acc || exists i :: 0 <= i < |pairs| && pairs[i].0 == k
    ensures forall i ::
              0 <= i < |pairs| && (forall j :: i < j < |pairs| ==> pairs[j].0 != pairs[i].0) ==>
                pairs[i].0 in Gathered(acc, pairs) && Gathered(acc, pairs)[pairs[i].0] == pairs[i].1
    ensures forall k :: k in acc && (forall i :: 0 <= i < |pairs| ==> pairs[i].0 != k) ==>
              k in Gathered(acc, pairs) && Gathered(acc, pairs)[k] == acc[k]
    decreases pairs
  {
    if pairs != [] {
      var next, rest := acc[pairs[0].0 := pairs[0].1], pairs[1..];
      GatheredMeans(next, rest);
      assert forall i :: 0 <= i < |rest| ==> rest[i] == pairs[i + 1];
      assert forall i :: 0 < i < |pairs| ==> pairs[i] == rest[i - 1];
      assert Gathered(acc, pairs) == Gathered(next, rest);
      hide Gathered;
    }
  }

  lemma PairRead(n: nat, acc: Dict, key: seq<Byte>, x: int, rest: seq<Byte>)
    requires n > 0 && |key| < 0x8000_0000 && -0x8000_0000 <= x < 0x8000_0000
    ensures ReadEntries(n, acc, EncodeValue(WString(key)) + EncodeValue(WI32(x)) + rest) ==
            ReadEntries(n - 1, acc[key := x], rest)
  {
    Pow256Four();
    var m := map[key := x];
    assert EntryFits(m, key);
    EntryWritten(m, key);
    EntryRoundTrip(n, acc, m, key, rest);
    hide ReadEntries, WriteEntry, EncodeValue;
  }

  lemma PairsNext(acc: Dict, pairs: seq<(seq<Byte>, int)>)
    requires pairs != []
    ensures EncodeItems(PairItems(pairs)) ==
            EncodeValue(WString(pairs[0].0)) + EncodeValue(WI32(pairs[0].1)) + EncodeItems(PairItems(pairs[1..]))
    ensures Gathered(acc, pairs) == Gathered(acc[pairs[0].0 := pairs[0].1], pairs[1..])
  {
    TwoItems(WString(pairs[0].0), WI32(pairs[0].1), PairItems(pairs[1..]));
    hide EncodeItems, EncodeValue;
  }

  lemma NoPairs(acc: Dict, rest: seq<Byte>)
    ensures ReadEntries(0, acc, EncodeItems(PairItems([])) + rest) == Ok(Gathered(acc, []), rest)
  {
    assert EncodeItems(PairItems([])) + rest == rest;
  }

  lemma {:induction false} PairsRead(acc: Dict, pairs: seq<(seq<Byte>, int)>, rest: seq<Byte>)
    requires PairsFit(pairs)
    ensures ReadEntries(|pairs|, acc, EncodeItems(PairItems(pairs)) + rest) == Ok(Gathered(acc, pairs), rest)
    decreases pairs
  {
    hide EncodeItems, EncodeValue, ReadEntries, PairItems, Gathered;
    if pairs == [] {
      NoPairs(acc, rest);
    } else {
      PairsNext(acc, pairs);
      var k, v := EncodeValue(WString(pairs[0].0)), EncodeValue(WI32(pairs[0].1));
      var t := EncodeItems(PairItems(pairs[1..]));
      PairRead(|pairs|, acc, pairs[0].0, pairs[0].1, t + rest);
      PairsRead(acc[pairs[0].0 := pairs[0].1], pairs[1..], rest);
      assert k + v + t + rest == k + v + (t + rest);
    }
  }

  lemma MapHeader(k: Byte, v: Byte, n: int, tail: seq<Byte>)
    requires -0x8000_0000 <= n < 0x8000_0000
    ensures ReadMap([k, v] + BigEndian(4, n) + tail) ==
            if n < 0 then Err(NEGATIVE_SIZE) else ReadEntries(n, map[], tail)
  {
    hide BigEndian, ReadInt, ReadEntries, Pow256;
    Pow256Four();
    NumberRead(4, n, tail);
    assert ([k, v] + BigEndian(4, n) + tail)[2..] == BigEndian(4, n) + tail;
  }

  /** The map reader takes any list of entries, whatever element types are announced; the last one of a key counts. */
  lemma MapRead(keyType: Byte, valType: Byte, pairs: seq<(seq<Byte>, int)>, rest: seq<Byte>)
    requires PairsFit(pairs) && |pairs| < 0x8000_0000
    ensures ReadMap(EncodeValue(WMap(keyType, valType, PairItems(pairs))) + rest) == Ok(Gathered(map[], pairs), rest)
  {
    hide EncodeItems, EncodeValue, ReadMap, ReadEntries, BigEndian, PairItems, Gathered;
    MapParts(keyType, valType, PairItems(pairs));
    var size, body := BigEndian(4, |pairs|), EncodeItems(PairItems(pairs));
    MapHeader(keyType, valType, |pairs|, body + rest);
    PairsRead(map[], pairs, rest);
    assert [keyType, valType] + size + body + rest == [keyType, valType] + size + (body + rest);
  }

  // ---------- What the readers refuse ----------

  lemma StringHeader(x: int, rest: seq<Byte>)
    requires -0x8000_0000 <= x < 0x8000_0000
    ensures x < 0 ==> ReadString(BigEndian(4, x) + rest) == Err(NEGATIVE_SIZE)
    ensures |rest| < x ==> ReadString(BigEndian(4, x) + rest) == Err(END_OF_FILE)
  {
    hide BigEndian, ReadInt, Pow256;
    Pow256Four();
    NumberRead(4, x, rest);
  }

  lemma NegativeSkipped(x: int, k: Byte, v: Byte, rest: seq<Byte>)
    requires -0x8000_0000 <= x < 0
    ensures Skip(13, [k, v] + BigEndian(4, x) + rest) == Err(NEGATIVE_SIZE)
    ensures Skip(14, [k] + BigEndian(4, x) + rest) == Err(NEGATIVE_SIZE)
    ensures Skip(15, [k] + BigEndian(4, x) + rest) == Err(NEGATIVE_SIZE)
  {
    hide BigEndian, ReadInt, Pow256, SkipItems;
    Pow256Four();
    NumberRead(4, x, rest);
    assert ([k, v] + BigEndian(4, x) + rest)[2..] == BigEndian(4, x) + rest;
    assert ([k] + BigEndian(4, x) + rest)[1..] == BigEndian(4, x) + rest;
  }

  /** A negative size is an exception of its own, whatever follows; a string that is cut short ends the input. */
  lemma SizesRefused(x: int, k: Byte, v: Byte, rest: seq<Byte>)
    requires -0x8000_0000 <= x < 0x8000_0000
    ensures x < 0 ==>
              && ReadString(BigEndian(4, x) + rest) == Err(NEGATIVE_SIZE)
              && ReadMap([k, v] + BigEndian(4, x) + rest) == Err(NEGATIVE_SIZE)
              && Skip(13, [k, v] + BigEndian(4, x) + rest) == Err(NEGATIVE_SIZE)
              && Skip(14, [k] + BigEndian(4, x) + rest) == Err(NEGATIVE_SIZE)
              && Skip(15, [k] + BigEndian(4, x) + rest) == Err(NEGATIVE_SIZE)
    ensures |rest| < x ==> ReadString(BigEndian(4, x) + rest) == Err(END_OF_FILE)
  {
    hide *;
    StringHeader(x, rest);
    MapHeader(k, v, x, rest);
    if x < 0 {
      NegativeSkipped(x, k, v, rest);
    }
  }

  /** A type that TType does not have, or that has no bytes, is passed over without reading any. */
  lemma OtherTypes(ty: Byte, s: seq<Byte>)
    requires ty !in {2, 3, 4, 6, 8, 10, 11, 12, 13, 14, 15}
    ensures Skip(ty, s) == Ok((), s)
  {
  }

  // ---------- The order of the keys ----------

  /** The first n bytes agree, and then a ends or has the smaller byte. */
  predicate Before(a: seq<Byte>, b: seq<Byte>, n: nat) {
    n <= |a| && n < |b| && a[..n] == b[..n] && (n == |a| || a[n] < b[n])
  }

  lemma FirstBytes(a: seq<Byte>, b: seq<Byte>, n: nat)
    requires Before(a, b, n) && n > 0
    ensures a != [] && b != [] && a[0] == b[0]
  {
    assert a[..n][0] == a[0] && b[..n][0] == b[0];
  }

  lemma {:induction false} LessMeans(a: seq<Byte>, b: seq<Byte>)
    ensures Less(a, b) <==> exists n: nat :: Before(a, b, n)
  {
    if b != [] && a != [] && a[0] == b[0] {
      LessMeans(a[1..], b[1..]);
      if n: nat :| Before(a[1..], b[1..], n) {
        assert a[..n + 1] == [a[0]] + a[1..][..n] && b[..n + 1] == [b[0]] + b[1..][..n];
        assert Before(a, b, n + 1);
      }
      if n: nat :| Before(a, b, n) {
        assert n > 0;
        assert a[1..][..n - 1] == a[..n][1..] && b[1..][..n - 1] == b[..n][1..];
        assert Before(a[1..], b[1..], n - 1);
      }
    } else if b == [] || a == [] {
      assert a == [] && b != [] ==> Before(a, b, 0);
    } else {
      assert a[0] < b[0] ==> Before(a, b, 0);
      forall n: nat | Before(a, b, n)
        ensures n == 0
      {
        if n > 0 {
          FirstBytes(a, b, n);
        }
      }
    }
  }

  /** Map keys are written in ascending order. */
  lemma {:induction false} KeysAscend(keys: set<seq<Byte>>, i: nat, j: nat)
    requires i < j < |InOrder(keys)|
    ensures Less(InOrder(keys)[i], InOrder(keys)[j])
    decreases |keys|
  {
    LeastExists(keys);
    var ks := InOrder(keys);
    var k := ks[0];
    FirstIsLeast(keys);
    var rest := InOrder(keys - {k});
    assert ks == [k] + rest;
    if i == 0 {
      assert ks[j] == rest[j - 1] && rest[j - 1] in rest;
    } else {
      KeysAscend(keys - {k}, i - 1, j - 1);
    }
    hide Less;
  }

  lemma FirstIsLeast(keys: set<seq<Byte>>)
    requires keys != {}
    ensures var ks := InOrder(keys); IsLeast(ks[0], keys) && ks == [ks[0]] + InOrder(keys - {ks[0]})
  {
    hide IsLeast;
  }
}
