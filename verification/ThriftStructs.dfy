/**
 Reading and writing whole structs: the round trip, unknown and wrongly typed fields, and fields in
 any order.
 */
module ThriftStructs {
  import opened Bytes
  import opened ThriftSpec

  // ---------- Values and schemas ----------

  datatype Kind = KBool | KI32 | KI64 | KString | KMap

  datatype Value = VBool(b: bool) | VInt(i: int) | VString(s: seq<Byte>) | VMap(m: Dict)

  /** The fields of a struct: field k of the sequence has the identifier k + 1. */
  type Schema = seq<Kind>

  const ARG_GET_DEFAULT_PRINTER: Schema := [KBool, KString, KI32]
  const ARG_ENUM_PRINTERS: Schema := [KBool, KI32, KString, KI32, KString, KI32, KI32, KI32, KMap]
  const ARG_DOCUMENT_PROPERTIES: Schema := [KI32, KI64, KI64, KString, KString, KString, KI32, KI32]
  const ARG_GET_PRINTER: Schema := [KBool, KI64, KI32, KString, KI32, KI32, KMap, KI32]

  function Code(k: Kind): Byte {
    match k
    case KBool => T_BOOL
    case KI32 => T_I32
    case KI64 => T_I64
    case KString => T_STRING
    case KMap => T_MAP
  }

  predicate HasKind(v: Value, k: Kind) {
    match k
    case KBool => v.VBool?
    case KI32 => v.VInt?
    case KI64 => v.VInt?
    case KString => v.VString?
    case KMap => v.VMap?
  }

  /** A field of an object, with its __isset flag. */
  datatype Slot = Slot(value: Value, isset: bool)

  // ---------- Reading one value ----------

  function ReadBool(s: seq<Byte>): Parsed<bool> {
    if s == [] then Err(END_OF_FILE) else Ok(s[0] != 0, s[1..])
  }

  function ReadValue(k: Kind, s: seq<Byte>): (r: Parsed<Value>)
    ensures r.Ok? ==> HasKind(r.value, k)
  {
    match k
    case KBool => (match ReadBool(s) case Ok(b, rest) => Ok(VBool(b), rest) case Err(e) => Err(e))
    case KI32 => (match ReadInt(4, s) case Ok(i, rest) => Ok(VInt(i), rest) case Err(e) => Err(e))
    case KI64 => (match ReadInt(8, s) case Ok(i, rest) => Ok(VInt(i), rest) case Err(e) => Err(e))
    case KString => (match ReadString(s) case Ok(str, rest) => Ok(VString(str), rest) case Err(e) => Err(e))
    case KMap => (match ReadMap(s) case Ok(m, rest) => Ok(VMap(m), rest) case Err(e) => Err(e))
  }

  // ---------- Skipping a value of any type ----------

  function Drop(n: nat, s: seq<Byte>): (r: Parsed<()>)
    ensures r.Ok? ==> |r.rest| == |s| - n
  {
    if |s| < n then Err(END_OF_FILE) else Ok((), s[n..])
  }

  /** skip(): reads a value of the given wire type and forgets it; unknown types have no bytes. */
  function Skip(ty: Byte, s: seq<Byte>): (r: Parsed<()>)
    ensures r.Ok? ==> |r.rest| <= |s|
    decreases |s|, 1, 0
  {
    if ty == T_BOOL || ty == T_BYTE then Drop(1, s)
    else if ty == T_I16 then Drop(2, s)
    else if ty == T_I32 then Drop(4, s)
    else if ty == T_I64 || ty == T_DOUBLE then Drop(8, s)
    else if ty == T_STRING then (match ReadString(s) case Ok(str, rest) => Ok((), rest) case Err(e) => Err(e))
    else if ty == T_STRUCT then SkipFields(s)
    else if ty == T_MAP then
      if |s| < 2 then Err(END_OF_FILE)
      else
        var size := ReadInt(4, s[2..]);
        if size.Err? then Err(size.error)
        else if size.value < 0 then Err(NEGATIVE_SIZE)
        else SkipItems([s[0], s[1]], 2 * size.value, size.rest)
    else if ty == T_SET || ty == T_LIST then
      if |s| < 1 then Err(END_OF_FILE)
      else
        var size := ReadInt(4, s[1..]);
        if size.Err? then Err(size.error)
        else if size.value < 0 then Err(NEGATIVE_SIZE)
        else SkipItems([s[0]], size.value, size.rest)
    else Ok((), s)
  }

  /** n values whose types are those of the list over and over: key and value in turn, or elements. */
  function SkipItems(types: seq<Byte>, n: nat, s: seq<Byte>): (r: Parsed<()>)
    requires types != []
    ensures r.Ok? ==> |r.rest| <= |s|
    decreases |s|, 2, n
  {
    if n == 0 then Ok((), s)
    else
      var first := Skip(types[0], s);
      if first.Err? then first else SkipItems(types[1..] + [types[0]], n - 1, first.rest)
  }

  /** Fields up to the stop byte. */
  function SkipFields(s: seq<Byte>): (r: Parsed<()>)
    ensures r.Ok? ==> |r.rest| <= |s|
    decreases |s|, 0, 0
  {
    if s == [] then Err(END_OF_FILE)
    else if s[0] == T_STOP then Ok((), s[1..])
    else if |s| < 3 then Err(END_OF_FILE)
    else
      var field := Skip(s[0], s[3..]);
      if field.Err? then field else SkipFields(field.rest)
  }

  // ---------- Structs ----------

  /** The position of the field with this identifier and wire type, if the reader takes it. */
  predicate Known(schema: Schema, ty: Byte, id: int) {
    1 <= id <= |schema| && Code(schema[id - 1]) == ty
  }

  /** The read loop: known fields are assigned, all others skipped, until the stop byte. */
  function ReadStruct(schema: Schema, slots: seq<Slot>, s: seq<Byte>): (r: Parsed<seq<Slot>>)
    requires |slots| == |schema|
    ensures r.Ok? ==> |r.value| == |schema| && |r.rest| < |s|
    decreases |s|
  {
    if s == [] then Err(END_OF_FILE)
    else if s[0] == T_STOP then Ok(slots, s[1..])
    else if |s| < 3 then Err(END_OF_FILE)
    else
      var ty, id := s[0], ReadInt(2, s[1..]).value;
      if Known(schema, ty, id) then
        ValueShrinks(schema[id - 1], s[3..]);
        var v := ReadValue(schema[id - 1], s[3..]);
        if v.Err? then Err(v.error) else ReadStruct(schema, slots[id - 1 := Slot(v.value, true)], v.rest)
      else
        var field := Skip(ty, s[3..]);
        if field.Err? then Err(field.error) else ReadStruct(schema, slots, field.rest)
  }

  lemma StringShrinks(s: seq<Byte>)
    ensures var r := ReadString(s); r.Ok? ==> |r.rest| <= |s|
  {
  }

  lemma {:induction false} EntriesShrink(n: nat, m: Dict, s: seq<Byte>)
    ensures var r := ReadEntries(n, m, s); r.Ok? ==> |r.rest| <= |s|
    decreases n
  {
    if n > 0 {
      var key := ReadString(s);
      StringShrinks(s);
      hide ReadString;
      if key.Ok? {
        var val := ReadInt(4, key.rest);
        if val.Ok? {
          EntriesShrink(n - 1, m[key.value := val.value], val.rest);
        }
      }
    }
  }

  lemma ValueShrinks(k: Kind, s: seq<Byte>)
    ensures var r := ReadValue(k, s); r.Ok? ==> |r.rest| <= |s|
  {
    StringShrinks(s);
    if |s| >= 2 {
      var size := ReadInt(4, s[2..]);
      if size.Ok? && size.value >= 0 {
        EntriesShrink(size.value, map[], size.rest);
      }
    }
    hide ReadEntries, ReadString;
  }

  // ---------- What is read depends on what is read only ----------

  lemma IntLocal(n: nat, s: seq<Byte>, x: seq<Byte>)
    ensures var r := ReadInt(n, s); r.Ok? ==> ReadInt(n, s + x) == Ok(r.value, r.rest + x)
  {
    if |s| >= n {
      assert (s + x)[..n] == s[..n];
      assert (s + x)[n..] == s[n..] + x;
    }
  }

  lemma StringLocal(s: seq<Byte>, x: seq<Byte>)
    ensures var r := ReadString(s); r.Ok? ==> ReadString(s + x) == Ok(r.value, r.rest + x)
  {
    IntLocal(4, s, x);
    hide ReadInt;
    var size := ReadInt(4, s);
    if size.Ok? && 0 <= size.value <= |size.rest| {
      assert (size.rest + x)[..size.value] == size.rest[..size.value];
      assert (size.rest + x)[size.value..] == size.rest[size.value..] + x;
    }
  }

  lemma {:induction false} EntriesLocal(n: nat, m: Dict, s: seq<Byte>, x: seq<Byte>)
    ensures var r := ReadEntries(n, m, s); r.Ok? ==> ReadEntries(n, m, s + x) == Ok(r.value, r.rest + x)
    decreases n
  {
    hide ReadString, ReadInt;
    if n > 0 {
      StringLocal(s, x);
      var key := ReadString(s);
      if key.Ok? {
        IntLocal(4, key.rest, x);
        var val := ReadInt(4, key.rest);
        if val.Ok? {
          EntriesLocal(n - 1, m[key.value := val.value], val.rest, x);
        }
      }
    }
  }

  lemma TailLocal(s: seq<Byte>, x: seq<Byte>, n: nat)
    requires n <= |s|
    ensures (s + x)[n..] == s[n..] + x && (s + x)[..n] == s[..n]
  {
  }

  lemma MapLocal(s: seq<Byte>, x: seq<Byte>)
    ensures var r := ReadMap(s); r.Ok? ==> ReadMap(s + x) == Ok(r.value, r.rest + x)
  {
    hide ReadEntries, ReadInt;
    if |s| >= 2 {
      TailLocal(s, x, 2);
      IntLocal(4, s[2..], x);
      var size := ReadInt(4, s[2..]);
      if size.Ok? && size.value >= 0 {
        EntriesLocal(size.value, map[], size.rest, x);
      }
    }
  }

  lemma ValueLocal(k: Kind, s: seq<Byte>, x: seq<Byte>)
    ensures var r := ReadValue(k, s); r.Ok? ==> ReadValue(k, s + x) == Ok(r.value, r.rest + x)
  {
    IntLocal(4, s, x);
    IntLocal(8, s, x);
    StringLocal(s, x);
    MapLocal(s, x);
    if s != [] {
      TailLocal(s, x, 1);
    }
    hide ReadInt, ReadString, ReadMap;
  }

  lemma DropLocal(n: nat, s: seq<Byte>, x: seq<Byte>)
    ensures var r := Drop(n, s); r.Ok? ==> Drop(n, s + x) == Ok((), r.rest + x)
  {
    if |s| >= n {
      TailLocal(s, x, n);
    }
  }

  lemma {:induction false} SkipLocal(ty: Byte, s: seq<Byte>, x: seq<Byte>)
    ensures var r := Skip(ty, s); r.Ok? ==> Skip(ty, s + x) == Ok((), r.rest + x)
    decreases |s|, 1, 0
  {
    if ty == T_STRUCT {
      SkipFieldsLocal(s, x);
    } else if ty == T_MAP && |s| >= 2 {
      SkipCountedLocal([s[0], s[1]], 2, s[2..], x);
      TailLocal(s, x, 2);
    } else if (ty == T_SET || ty == T_LIST) && |s| >= 1 {
      SkipCountedLocal([s[0]], 1, s[1..], x);
      TailLocal(s, x, 1);
    } else {
      StringLocal(s, x);
      DropLocal(1, s, x);
      DropLocal(2, s, x);
      DropLocal(4, s, x);
      DropLocal(8, s, x);
      hide ReadString, Drop;
    }
  }

  /** A size and that many groups of items. */
  lemma {:induction false} SkipCountedLocal(types: seq<Byte>, group: nat, s: seq<Byte>, x: seq<Byte>)
    requires types != []
    ensures var size := ReadInt(4, s);
            size.Ok? && size.value >= 0 && SkipItems(types, group * size.value, size.rest).Ok? ==>
              var size' := ReadInt(4, s + x);
              && size'.Ok? && size'.value == size.value
              && SkipItems(types, group * size.value, size'.rest) ==
                 Ok((), SkipItems(types, group * size.value, size.rest).rest + x)
    decreases |s|, 3, 0
  {
    IntLocal(4, s, x);
    var size := ReadInt(4, s);
    if size.Ok? && size.value >= 0 {
      SkipItemsLocal(types, group * size.value, size.rest, x);
    }
  }

  lemma {:induction false} SkipItemsLocal(types: seq<Byte>, n: nat, s: seq<Byte>, x: seq<Byte>)
    requires types != []
    ensures var r := SkipItems(types, n, s); r.Ok? ==> SkipItems(types, n, s + x) == Ok((), r.rest + x)
    decreases |s|, 2, n
  {
    if n > 0 {
      SkipLocal(types[0], s, x);
      var first := Skip(types[0], s);
      if first.Ok? {
        SkipItemsLocal(types[1..] + [types[0]], n - 1, first.rest, x);
      }
    }
  }

  lemma {:induction false} SkipFieldsLocal(s: seq<Byte>, x: seq<Byte>)
    ensures var r := SkipFields(s); r.Ok? ==> SkipFields(s + x) == Ok((), r.rest + x)
    decreases |s|, 0, 0
  {
    if s != [] && s[0] == T_STOP {
      TailLocal(s, x, 1);
    } else if |s| >= 3 {
      TailLocal(s, x, 3);
      SkipLocal(s[0], s[3..], x);
      var field := Skip(s[0], s[3..]);
      if field.Ok? {
        SkipFieldsLocal(field.rest, x);
      }
    }
  }

  // ---------- Streams of fields ----------

  type FieldId = x: int | -0x8000 <= x < 0x8000

  /** One field on the wire. */
  datatype Field = Field(ty: Byte, id: FieldId, payload: seq<Byte>)

  /** The payload is one whole value of the type. */
  predicate WellFormed(f: Field) {
    f.ty != T_STOP && var r := Skip(f.ty, f.payload); r.Ok? && r.rest == []
  }

  function Encode(f: Field): seq<Byte> {
    Pow256Four();
    [f.ty] + WriteInt(2, f.id) + f.payload
  }

  /** Fields and the stop byte. */
  function EncodeAll(fs: seq<Field>): seq<Byte> {
    if fs == [] then [T_STOP] else Encode(fs[0]) + EncodeAll(fs[1..])
  }

  /** The reader takes this field: it knows the identifier, and the type is the expected one. */
  predicate Taken(schema: Schema, f: Field) {
    Known(schema, f.ty, f.id)
  }

  /** A field that is taken can be read and is read to its end. */
  predicate Readable(schema: Schema, f: Field) {
    Taken(schema, f) ==> var r := ReadValue(schema[f.id - 1], f.payload); r.Ok? && r.rest == []
  }

  predicate GoodField(schema: Schema, f: Field) {
    WellFormed(f) && Readable(schema, f)
  }

  ghost predicate AllGood(schema: Schema, fs: seq<Field>) {
    forall f :: f in fs ==> GoodField(schema, f)
  }

  function Assign(schema: Schema, slots: seq<Slot>, f: Field): (r: seq<Slot>)
    requires |slots| == |schema| && GoodField(schema, f)
    ensures |r| == |schema|
  {
    if Taken(schema, f) then slots[f.id - 1 := Slot(ReadValue(schema[f.id - 1], f.payload).value, true)] else slots
  }

  /** The object after the fields have been read one after the other. */
  ghost function AssignAll(schema: Schema, slots: seq<Slot>, fs: seq<Field>): (r: seq<Slot>)
    requires |slots| == |schema| && AllGood(schema, fs)
    ensures |r| == |schema|
    decreases |fs|
  {
    if fs == [] then slots else AssignAll(schema, Assign(schema, slots, fs[0]), fs[1..])
  }

  /** The three parts of an encoded field. */
  lemma EncodedParts(f: Field, rest: seq<Byte>)
    ensures var s := Encode(f) + rest;
            |s| >= 3 && s[0] == f.ty && s[3..] == f.payload + rest && ReadInt(2, s[1..]).Ok? &&
              ReadInt(2, s[1..]).value == f.id
  {
    var s := Encode(f) + rest;
    Pow256Four();
    assert s[1..] == WriteInt(2, f.id) + (f.payload + rest);
    IntRoundTrip(2, f.id, f.payload + rest);
    hide ReadInt, WriteInt;
    assert s[3..] == f.payload + rest;
  }

  /** One round of the read loop. */
  lemma FieldRead(schema: Schema, slots: seq<Slot>, f: Field, rest: seq<Byte>)
    requires |slots| == |schema| && GoodField(schema, f)
    ensures ReadStruct(schema, slots, Encode(f) + rest) == ReadStruct(schema, Assign(schema, slots, f), rest)
  {
    hide Skip, ReadValue, Encode, ReadInt, Code;
    EncodedParts(f, rest);
    SkipLocal(f.ty, f.payload, rest);
    assert [] + rest == rest;
    if Taken(schema, f) {
      ValueLocal(schema[f.id - 1], f.payload, rest);
    }
  }

  /** Reading a stream of well-formed fields assigns those that are taken, in order, and consumes exactly the stream. */
  lemma {:induction false} StreamRead(schema: Schema, slots: seq<Slot>, fs: seq<Field>, rest: seq<Byte>)
    requires |slots| == |schema| && AllGood(schema, fs)
    ensures ReadStruct(schema, slots, EncodeAll(fs) + rest) == Ok(AssignAll(schema, slots, fs), rest)
    decreases |fs|
  {
    hide Encode, Assign, GoodField;
    if fs == [] {
      assert EncodeAll(fs) + rest == [T_STOP] + rest;
    } else {
      assert EncodeAll(fs) + rest == Encode(fs[0]) + (EncodeAll(fs[1..]) + rest);
      FieldRead(schema, slots, fs[0], EncodeAll(fs[1..]) + rest);
      StreamRead(schema, Assign(schema, slots, fs[0]), fs[1..], rest);
    }
  }
}
