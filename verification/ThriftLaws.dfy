/**
 The laws of the struct readers and writers: what is written is read back, fields the reader does not
 know are passed over, and the order of the fields does not matter.
 */
module ThriftLaws {
  import opened Bytes
  import opened ThriftSpec
  import opened ThriftStructs

  // ---------- Order and unknown fields ----------

  /** The fields that are taken have different identifiers. */
  ghost predicate TakenOnce(schema: Schema, fs: seq<Field>) {
    forall f, g :: f in fs && g in fs && Taken(schema, f) && Taken(schema, g) && f.id == g.id ==> f == g
  }

  ghost predicate TakenAt(schema: Schema, fs: seq<Field>, f: Field, i: nat) {
    f in fs && Taken(schema, f) && f.id == i + 1
  }

  /** What the object holds in field i after the stream: what the stream says about it, or what it held before. */
  lemma {:induction false} AssignedAt(schema: Schema, slots: seq<Slot>, fs: seq<Field>, i: nat)
    requires |slots| == |schema| && AllGood(schema, fs) && TakenOnce(schema, fs) && i < |schema|
    ensures (forall f :: !TakenAt(schema, fs, f, i)) ==> AssignAll(schema, slots, fs)[i] == slots[i]
    ensures forall f :: TakenAt(schema, fs, f, i) ==>
              AssignAll(schema, slots, fs)[i] == Slot(ReadValue(schema[i], f.payload).value, true)
    decreases |fs|
  {
    hide ReadValue, WellFormed;
    if fs != [] {
      var slots' := Assign(schema, slots, fs[0]);
      AssignedAt(schema, slots', fs[1..], i);
      forall f | TakenAt(schema, fs[1..], f, i)
        ensures TakenAt(schema, fs, f, i)
      {
      }
      if TakenAt(schema, fs, fs[0], i) {
        assert slots'[i] == Slot(ReadValue(schema[i], fs[0].payload).value, true);
        assert forall f :: TakenAt(schema, fs, f, i) ==> f == fs[0];
      } else {
        assert slots'[i] == slots[i];
        assert forall f :: TakenAt(schema, fs, f, i) ==> TakenAt(schema, fs[1..], f, i);
      }
    }
  }

  /** The two streams agree on the fields that the reader takes. */
  ghost predicate SameTaken(schema: Schema, fs: seq<Field>, gs: seq<Field>) {
    forall f :: Taken(schema, f) ==> (f in fs <==> f in gs)
  }

  /**
   Inserting well-formed fields with unknown identifiers or of the wrong type, leaving such fields
   out, and permuting the known fields do not change what is read.
   */
  lemma FieldTolerance(schema: Schema, slots: seq<Slot>, fs: seq<Field>, gs: seq<Field>, rest: seq<Byte>)
    requires |slots| == |schema| && AllGood(schema, fs) && AllGood(schema, gs)
    requires TakenOnce(schema, fs) && SameTaken(schema, fs, gs)
    ensures ReadStruct(schema, slots, EncodeAll(gs) + rest) == ReadStruct(schema, slots, EncodeAll(fs) + rest)
    ensures ReadStruct(schema, slots, EncodeAll(gs) + rest).Ok? &&
            ReadStruct(schema, slots, EncodeAll(gs) + rest).rest == rest
  {
    StreamRead(schema, slots, fs, rest);
    StreamRead(schema, slots, gs, rest);
    SameAssigned(schema, slots, fs, gs);
    hide ReadStruct, EncodeAll, AssignAll;
  }

  lemma SameAssigned(schema: Schema, slots: seq<Slot>, fs: seq<Field>, gs: seq<Field>)
    requires |slots| == |schema| && AllGood(schema, fs) && AllGood(schema, gs)
    requires TakenOnce(schema, fs) && SameTaken(schema, fs, gs)
    ensures AssignAll(schema, slots, fs) == AssignAll(schema, slots, gs)
  {
    hide AssignAll, GoodField, Taken, ReadValue;
    assert TakenOnce(schema, gs);
    var a, b := AssignAll(schema, slots, fs), AssignAll(schema, slots, gs);
    forall i: nat | i < |schema|
      ensures a[i] == b[i]
    {
      AssignedAt(schema, slots, fs, i);
      AssignedAt(schema, slots, gs, i);
      assert forall f :: TakenAt(schema, fs, f, i) <==> TakenAt(schema, gs, f, i);
      hide TakenAt;
    }
  }

  // ---------- Which well-formed fields can be read ----------

  /** Two items of a list that is skipped pairwise. */
  lemma SkipPair(a: Byte, b: Byte, n: nat, s: seq<Byte>)
    requires n > 0
    ensures SkipItems([a, b], 2 * n, s) ==
              var first := Skip(a, s);
              if first.Err? then first
              else
                var second := Skip(b, first.rest);
                if second.Err? then second else SkipItems([a, b], 2 * (n - 1), second.rest)
  {
    assert [a, b][1..] + [a] == [b, a];
    assert [b, a][1..] + [b] == [a, b];
    var first := Skip(a, s);
    hide Skip;
    if first.Ok? {
      assert SkipItems([a, b], 2 * n, s) == SkipItems([b, a], 2 * n - 1, first.rest);
    }
  }

  /** skip() and the map reader go over the same bytes, if the elements are strings and 32-bit integers. */
  lemma {:induction false} EntriesSkipped(n: nat, m: Dict, s: seq<Byte>)
    ensures var r, k := ReadEntries(n, m, s), SkipItems([T_STRING, T_I32], 2 * n, s);
            (r.Ok? <==> k.Ok?) && (r.Ok? ==> r.rest == k.rest)
    decreases n
  {
    hide ReadString, SkipItems;
    if n == 0 {
      NothingSkipped([T_STRING, T_I32], s);
    } else {
      SkipPair(T_STRING, T_I32, n, s);
      var key := ReadString(s);
      if key.Ok? {
        var val := ReadInt(4, key.rest);
        if val.Ok? {
          EntriesSkipped(n - 1, m[key.value := val.value], val.rest);
        }
      }
    }
  }

  lemma NothingSkipped(types: seq<Byte>, s: seq<Byte>)
    requires types != []
    ensures SkipItems(types, 0, s) == Ok((), s)
  {
  }

  /** The payload of a map field declares the element types that the reader assumes. */
  predicate DeclaredTypes(k: Kind, s: seq<Byte>) {
    k == KMap ==> |s| >= 2 && s[0] == T_STRING && s[1] == T_I32
  }

  /** The payload of a map field says that there are no entries. */
  predicate DeclaredEmpty(k: Kind, s: seq<Byte>) {
    k == KMap && |s| >= 6 && s[2..6] == [0, 0, 0, 0]
  }

  /** A value is skipped over exactly as it is read. */
  lemma SkippedAsRead(k: Kind, s: seq<Byte>)
    requires DeclaredTypes(k, s) || DeclaredEmpty(k, s)
    ensures var r, d := ReadValue(k, s), Skip(Code(k), s);
            (r.Ok? <==> d.Ok?) && (r.Ok? ==> r.rest == d.rest)
  {
    if DeclaredEmpty(k, s) {
      SizeZero(s);
      NothingSkipped([s[0], s[1]], s[6..]);
      hide ReadInt, SkipItems;
    } else if k == KMap {
      var size := ReadInt(4, s[2..]);
      if size.Ok? && size.value >= 0 {
        EntriesSkipped(size.value, map[], size.rest);
      }
      hide ReadInt, SkipItems, ReadEntries;
    } else {
      hide SkipItems, ReadEntries, SkipFields, ReadString;
    }
  }

  lemma SizeZero(s: seq<Byte>)
    requires DeclaredEmpty(KMap, s)
    ensures ReadInt(4, s[2..]) == Ok(0, s[6..])
  {
    Pow256Four();
    assert s[2..][..4] == [0, 0, 0, 0] && s[2..][4..] == s[6..];
    ZeroRead();
  }

  lemma ZeroRead()
    ensures FromBE([0, 0, 0, 0]) == 0
  {
    assert FromBE([0]) == 0;
    assert FromBE([0, 0]) == 0;
    assert FromBE([0, 0, 0]) == 0;
    assert [0, 0, 0, 0][..3] == [0, 0, 0];
  }

  /**
   Every well-formed field can be read, if a map among the known fields declares the expected element
   types or no entry. For other maps the element types and the size decide nothing: see TypesDoNotDecide.
   */
  lemma WellFormedIsGood(schema: Schema, f: Field)
    requires WellFormed(f)
    requires Taken(schema, f) ==>
               DeclaredTypes(schema[f.id - 1], f.payload) || DeclaredEmpty(schema[f.id - 1], f.payload)
    ensures GoodField(schema, f)
  {
    hide Skip, ReadValue, DeclaredEmpty;
    if Taken(schema, f) {
      SkippedAsRead(schema[f.id - 1], f.payload);
    }
  }

  /** A map field of one entry whose key and value are 32-bit integers. */
  function IntMap(key: Byte): Field {
    Field(T_MAP, 9, [T_I32, T_I32, 0, 0, 0, 1, 0, 0, 0, key, 0, 0, 0, 0])
  }

  /** Two well-formed maps with the same element types and the same size: one is read, the other is not. */
  lemma TypesDoNotDecide()
    ensures WellFormed(IntMap(0)) && WellFormed(IntMap(1))
    ensures GoodField(ARG_ENUM_PRINTERS, IntMap(0)) && !GoodField(ARG_ENUM_PRINTERS, IntMap(1))
  {
    IntMapGood(0);
    IntMapGood(1);
    hide *;
  }

  lemma IntMapGood(key: Byte)
    requires key <= 1
    ensures WellFormed(IntMap(key)) && (GoodField(ARG_ENUM_PRINTERS, IntMap(key)) <==> key == 0)
  {
    IntMapSkipped(key);
    IntMapRead(key);
    hide Skip, ReadMap;
    assert IntMap(key).ty == T_MAP && IntMap(key).id == 9 && ARG_ENUM_PRINTERS[8] == KMap;
  }

  lemma IntMapSkipped(key: Byte)
    ensures Skip(T_MAP, IntMap(key).payload) == Ok((), [])
  {
    var s := IntMap(key).payload;
    assert s[2..] == [0, 0, 0, 1] + [0, 0, 0, key, 0, 0, 0, 0];
    OneFrom([0, 0, 0, key, 0, 0, 0, 0]);
    hide ReadInt;
    SkipPair(T_I32, T_I32, 1, [0, 0, 0, key, 0, 0, 0, 0]);
    NothingSkipped([T_I32, T_I32], []);
    assert Drop(4, [0, 0, 0, key, 0, 0, 0, 0]) == Ok((), [0, 0, 0, 0]);
    assert Drop(4, [0, 0, 0, 0]) == Ok((), []);
    hide SkipItems;
  }

  /** The bytes behind the size: an empty string and a zero. */
  lemma ZeroKeyRead()
    ensures ReadString([0, 0, 0, 0] + [0, 0, 0, 0]) == Ok([], [0, 0, 0, 0])
    ensures ReadInt(4, [0, 0, 0, 0]) == Ok(0, [])
  {
    var t: seq<Byte> := [0, 0, 0, 0] + [0, 0, 0, 0];
    ZeroRead();
    Pow256Four();
    assert t[..4] == [0, 0, 0, 0] && t[4..] == [0, 0, 0, 0];
    assert [0, 0, 0, 0][..4] == [0, 0, 0, 0];
    hide FromBE;
    assert ReadInt(4, t) == Ok(0, [0, 0, 0, 0]);
  }

  /** A string of one byte, and three bytes where an integer takes four. */
  lemma OneKeyRead()
    ensures ReadString([0, 0, 0, 1] + [0, 0, 0, 0]) == Ok([0], [0, 0, 0])
  {
    OneFrom([0, 0, 0, 0]);
    hide ReadInt;
    assert [0, 0, 0, 0][1..] == [0, 0, 0] && [0, 0, 0, 0][..1] == [0];
  }

  lemma IntMapRead(key: Byte)
    requires key <= 1
    ensures ReadMap(IntMap(key).payload) == if key == 0 then Ok(map[[] := 0], []) else Err(END_OF_FILE)
  {
    var t := [0, 0, 0, key] + [0, 0, 0, 0];
    if key == 0 {
      ZeroKeyRead();
    } else {
      OneKeyRead();
    }
    hide IntMap, ReadString, ReadMap;
    IntMapEntry(key, t);
  }

  lemma IntMapEntry(key: Byte, t: seq<Byte>)
    requires t == [0, 0, 0, key] + [0, 0, 0, 0] && ReadString(t).Ok?
    ensures var r := ReadString(t);
            var val := ReadInt(4, r.rest);
            ReadMap(IntMap(key).payload) == if val.Ok? then Ok(map[r.value := val.value], val.rest) else Err(val.error)
  {
    assert IntMap(key).payload[2..] == [0, 0, 0, 1] + t;
    hide ReadInt, ReadString, ReadEntries;
    OneFrom(t);
    OneEntry(t);
  }

  lemma OneEntry(t: seq<Byte>)
    requires ReadString(t).Ok?
    ensures var key := ReadString(t);
            var val := ReadInt(4, key.rest);
            ReadEntries(1, map[], t) == if val.Ok? then Ok(map[key.value := val.value], val.rest) else Err(val.error)
  {
    hide ReadString, ReadInt;
  }

  /**
   The reader does not look at the element types: a well-formed map of other types under a known identifier is
   misread.
   */
  lemma OtherElementTypesMisread()
    ensures var f := Field(T_MAP, 9, [T_BOOL, T_BOOL, 0, 0, 0, 1, 1, 1]);
            && WellFormed(f) && Taken(ARG_ENUM_PRINTERS, f)
            && forall slots: seq<Slot> :: |slots| == 9 ==> ReadStruct(ARG_ENUM_PRINTERS, slots, EncodeAll([f])).Err?
  {
    Pow256Four();
    var f := Field(T_MAP, 9, [T_BOOL, T_BOOL, 0, 0, 0, 1, 1, 1]);
    var s := f.payload;
    assert s[2..] == [0, 0, 0, 1] + [1, 1];
    OneFrom([1, 1]);
    assert ReadInt(4, s[2..]) == Ok(1, [1, 1]);
    assert [T_BOOL, T_BOOL][1..] + [T_BOOL] == [T_BOOL, T_BOOL];
    assert SkipItems([T_BOOL, T_BOOL], 2, [1, 1]) == SkipItems([T_BOOL, T_BOOL], 1, [1]) ==
           SkipItems([T_BOOL, T_BOOL], 0, []);
    forall slots: seq<Slot> | |slots| == 9
      ensures ReadStruct(ARG_ENUM_PRINTERS, slots, EncodeAll([f])).Err?
    {
      var rest := EncodeAll([f][1..]);
      EncodedParts(f, rest);
      assert EncodeAll([f]) == Encode(f) + rest;
      var t := s + rest;
      assert t[2..] == [0, 0, 0, 1] + [1, 1, T_STOP];
      OneFrom([1, 1, T_STOP]);
      assert ReadString([1, 1, T_STOP]) == Err(END_OF_FILE);
    }
  }

  lemma OneFrom(rest: seq<Byte>)
    ensures ReadInt(4, [0, 0, 0, 1] + rest) == Ok(1, rest)
  {
    Pow256Four();
    assert ([0, 0, 0, 1] + rest)[..4] == [0, 0, 0, 1];
    assert ([0, 0, 0, 1] + rest)[4..] == rest;
    assert FromBE([0]) == 0;
    assert FromBE([0, 0]) == 0;
    assert FromBE([0, 0, 0]) == 0;
    assert [0, 0, 0, 1][..3] == [0, 0, 0];
  }

  // ---------- Writing ----------

  /** A value that a field of this kind can hold and that its writer does not refuse. */
  ghost predicate Fits(k: Kind, v: Value) {
    && HasKind(v, k)
    && match k
       case KBool => true
       case KI32 => InRange(4, v.i)
       case KI64 => InRange(8, v.i)
       case KString => Short(v.s)
       case KMap => DictFits(v.m)
  }

  ghost function WriteValue(k: Kind, v: Value): seq<Byte>
    requires Fits(k, v)
  {
    match k
    case KBool => [if v.b then 1 else 0]
    case KI32 => WriteInt(4, v.i)
    case KI64 => WriteInt(8, v.i)
    case KString => WriteString(v.s)
    case KMap => WriteMap(v.m)
  }

  /** The size of a map fits the 32 bits it is written with. */
  predicate SizeFits(v: Value) {
    v.VMap? ==> |v.m| <= MAX_SIZE
  }

  lemma ValueRoundTrip(k: Kind, v: Value, rest: seq<Byte>)
    requires Fits(k, v) && SizeFits(v)
    ensures ReadValue(k, WriteValue(k, v) + rest) == Ok(v, rest)
    ensures DeclaredTypes(k, WriteValue(k, v))
  {
    match k {
      case KBool => assert ([if v.b then 1 else 0] + rest)[1..] == rest;
      case KI32 => IntRoundTrip(4, v.i, rest);
      case KI64 => IntRoundTrip(8, v.i, rest);
      case KString => StringRoundTrip(v.s, rest);
      case KMap => MapRoundTrip(v.m, rest);
    }
    hide ReadInt, WriteInt, ReadString, WriteString, ReadMap, WriteEntries;
  }

  /** Every field of the object can be written. */
  ghost predicate Writable(schema: Schema, slots: seq<Slot>) {
    |slots| == |schema| < 0x7FFF && forall i :: 0 <= i < |schema| ==> Fits(schema[i], slots[i].value)
  }

  ghost function FieldOf(schema: Schema, slots: seq<Slot>, i: nat): Field
    requires Writable(schema, slots) && i < |schema|
  {
    Field(Code(schema[i]), i + 1, WriteValue(schema[i], slots[i].value))
  }

  /** The fields i, i + 1, ... in the order in which they are written. */
  ghost function FieldsFrom(schema: Schema, slots: seq<Slot>, i: nat): (r: seq<Field>)
    requires Writable(schema, slots) && i <= |schema|
    ensures |r| == |schema| - i
    ensures forall j :: 0 <= j < |r| ==> r[j] == FieldOf(schema, slots, i + j)
    decreases |schema| - i
  {
    if i == |schema| then [] else [FieldOf(schema, slots, i)] + FieldsFrom(schema, slots, i + 1)
  }

  /** What write() sends. */
  ghost function WriteStruct(schema: Schema, slots: seq<Slot>): seq<Byte>
    requires Writable(schema, slots)
  {
    EncodeAll(FieldsFrom(schema, slots, 0))
  }

  /** What is written for a value is one whole value of its wire type. */
  lemma WrittenWhole(k: Kind, v: Value)
    requires Fits(k, v) && SizeFits(v)
    ensures ReadValue(k, WriteValue(k, v)) == Ok(v, [])
    ensures var d := Skip(Code(k), WriteValue(k, v)); d.Ok? && d.rest == []
  {
    ValueRoundTrip(k, v, []);
    assert WriteValue(k, v) + [] == WriteValue(k, v);
    hide ReadValue, WriteValue, Skip, Fits, SizeFits;
    SkippedAsRead(k, WriteValue(k, v));
  }

  lemma WrittenField(schema: Schema, slots: seq<Slot>, i: nat)
    requires Writable(schema, slots) && i < |schema| && SizeFits(slots[i].value)
    ensures var f := FieldOf(schema, slots, i);
            GoodField(schema, f) && Taken(schema, f) && f.id == i + 1 &&
              ReadValue(schema[i], f.payload) == Ok(slots[i].value, [])
  {
    WrittenWhole(schema[i], slots[i].value);
    hide ReadValue, WriteValue, Skip, Fits, SizeFits;
  }

  /** The object with every field set. */
  function AllSet(slots: seq<Slot>): (r: seq<Slot>)
    ensures |r| == |slots| && forall i :: 0 <= i < |slots| ==> r[i] == Slot(slots[i].value, true)
  {
    seq(|slots|, i requires 0 <= i < |slots| => Slot(slots[i].value, true))
  }

  /** No map of the object is too large for its size to be written. */
  predicate SizesFit(slots: seq<Slot>) {
    forall i :: 0 <= i < |slots| ==> SizeFits(slots[i].value)
  }

  lemma WrittenStream(schema: Schema, slots: seq<Slot>)
    requires Writable(schema, slots) && SizesFit(slots)
    ensures AllGood(schema, FieldsFrom(schema, slots, 0)) && TakenOnce(schema, FieldsFrom(schema, slots, 0))
  {
    var fs := FieldsFrom(schema, slots, 0);
    hide GoodField, FieldOf, FieldsFrom, Fits, ReadValue;
    forall j | 0 <= j < |fs|
      ensures GoodField(schema, fs[j]) && fs[j].id == j + 1
    {
      WrittenField(schema, slots, j);
    }
  }

  /**
   The round trip: reading what was written into any prior object gives an equal one, with every
   field set, and consumes exactly the bytes written.
   */
  lemma RoundTrip(schema: Schema, slots: seq<Slot>, prior: seq<Slot>, rest: seq<Byte>)
    requires Writable(schema, slots) && SizesFit(slots) && |prior| == |schema|
    ensures ReadStruct(schema, prior, WriteStruct(schema, slots) + rest) == Ok(AllSet(slots), rest)
  {
    WrittenStream(schema, slots);
    StreamRead(schema, prior, FieldsFrom(schema, slots, 0), rest);
    AllAssigned(schema, slots, prior);
    hide *;
  }

  lemma AllAssigned(schema: Schema, slots: seq<Slot>, prior: seq<Slot>)
    requires Writable(schema, slots) && SizesFit(slots) && |prior| == |schema|
    requires AllGood(schema, FieldsFrom(schema, slots, 0))
    ensures AssignAll(schema, prior, FieldsFrom(schema, slots, 0)) == AllSet(slots)
  {
    forall i: nat | i < |schema|
      ensures AssignAll(schema, prior, FieldsFrom(schema, slots, 0))[i] == AllSet(slots)[i]
    {
      WrittenAt(schema, slots, prior, i);
      hide AssignAll, FieldsFrom, AllGood, Fits;
    }
    hide AssignAll, FieldsFrom, AllGood, Fits;
  }

  lemma WrittenAt(schema: Schema, slots: seq<Slot>, prior: seq<Slot>, i: nat)
    requires Writable(schema, slots) && SizesFit(slots) && |prior| == |schema| && i < |schema|
    requires AllGood(schema, FieldsFrom(schema, slots, 0))
    ensures AssignAll(schema, prior, FieldsFrom(schema, slots, 0))[i] == Slot(slots[i].value, true)
  {
    var fs := FieldsFrom(schema, slots, 0);
    WrittenStream(schema, slots);
    WrittenField(schema, slots, i);
    AssignedAt(schema, prior, fs, i);
    hide AssignAll, ReadValue, WriteValue, GoodField, Fits, SizeFits, Taken;
    assert fs[i] == FieldOf(schema, slots, i);
    assert TakenAt(schema, fs, fs[i], i);
  }

  /**
   The round trip through a stream that has been tampered with: whatever fields the reader does not
   take are added, and in whatever order the fields come, the object read is the one written.
   */
  lemma TolerantRoundTrip(schema: Schema, slots: seq<Slot>, prior: seq<Slot>, gs: seq<Field>, rest: seq<Byte>)
    requires Writable(schema, slots) && SizesFit(slots) && |prior| == |schema|
    requires AllGood(schema, gs) && SameTaken(schema, FieldsFrom(schema, slots, 0), gs)
    ensures ReadStruct(schema, prior, EncodeAll(gs) + rest) == Ok(AllSet(slots), rest)
  {
    WrittenStream(schema, slots);
    RoundTrip(schema, slots, prior, rest);
    FieldTolerance(schema, prior, FieldsFrom(schema, slots, 0), gs, rest);
  }

  // ---------- Maps that are too large ----------

  /** A map field that is read never ends up larger than a 32-bit size can say. */
  lemma {:induction false} ReadMapsSmall(schema: Schema, slots: seq<Slot>, s: seq<Byte>, i: nat)
    requires |slots| == |schema| && i < |schema| && schema[i] == KMap
    requires SizeFits(slots[i].value)
    ensures var r := ReadStruct(schema, slots, s); r.Ok? ==> SizeFits(r.value[i].value)
    decreases |s|
  {
    hide Skip;
    if |s| >= 3 && s[0] != T_STOP {
      var ty, id := s[0], ReadInt(2, s[1..]).value;
      if Known(schema, ty, id) {
        ValueShrinks(schema[id - 1], s[3..]);
        MapBounded(s[3..]);
        hide ReadInt, ReadMap, ReadString;
        var v := ReadValue(schema[id - 1], s[3..]);
        if v.Ok? {
          ReadMapsSmall(schema, slots[id - 1 := Slot(v.value, true)], v.rest, i);
        }
      } else {
        var field := Skip(ty, s[3..]);
        if field.Ok? {
          ReadMapsSmall(schema, slots, field.rest, i);
        }
      }
    }
  }

  /** The first field that cannot be read back. */
  predicate FirstTooLarge(slots: seq<Slot>, i: nat) {
    i < |slots| && !SizeFits(slots[i].value) && forall j :: 0 <= j < i ==> SizeFits(slots[j].value)
  }

  /** From the first map that is too large on, nothing that can be read gives the object written. */
  lemma {:induction false} TooLargeMisread(schema: Schema, slots: seq<Slot>, now: seq<Slot>, i: nat, k: nat,
                                           rest: seq<Byte>)
    requires Writable(schema, slots) && |now| == |schema| && k <= i && FirstTooLarge(slots, i)
    ensures var r := ReadStruct(schema, now, EncodeAll(FieldsFrom(schema, slots, k)) + rest);
            r.Ok? ==> SizeFits(r.value[i].value)
    decreases i - k
  {
    hide ReadStruct, EncodeAll, FieldsFrom, FieldOf, Encode, Fits, SizeFits;
    var tail := EncodeAll(FieldsFrom(schema, slots, k + 1)) + rest;
    EncodedNext(schema, slots, k, rest);
    if k < i {
      var next := WrittenRead(schema, slots, now, k, tail);
      TooLargeMisread(schema, slots, next, i, k + 1, rest);
    } else {
      TooLargeHere(schema, slots, now, i, tail);
    }
    hide *;
  }

  lemma EncodedNext(schema: Schema, slots: seq<Slot>, k: nat, rest: seq<Byte>)
    requires Writable(schema, slots) && k < |schema|
    ensures EncodeAll(FieldsFrom(schema, slots, k)) + rest ==
            Encode(FieldOf(schema, slots, k)) + (EncodeAll(FieldsFrom(schema, slots, k + 1)) + rest)
  {
    var fs := FieldsFrom(schema, slots, k);
    assert fs[1..] == FieldsFrom(schema, slots, k + 1);
    hide FieldsFrom, FieldOf, Encode;
  }

  /** A field that fits is read over. */
  lemma WrittenRead(schema: Schema, slots: seq<Slot>, now: seq<Slot>, k: nat, tail: seq<Byte>) returns (next: seq<Slot>)
    requires Writable(schema, slots) && |now| == |schema| && k < |schema| && SizeFits(slots[k].value)
    ensures |next| == |schema|
    ensures ReadStruct(schema, now, Encode(FieldOf(schema, slots, k)) + tail) == ReadStruct(schema, next, tail)
  {
    WrittenField(schema, slots, k);
    hide ReadStruct, Encode, FieldOf, GoodField, Fits;
    FieldRead(schema, now, FieldOf(schema, slots, k), tail);
    next := Assign(schema, now, FieldOf(schema, slots, k));
  }

  lemma TooLargeHere(schema: Schema, slots: seq<Slot>, now: seq<Slot>, i: nat, tail: seq<Byte>)
    requires Writable(schema, slots) && |now| == |schema| && i < |schema| && !SizeFits(slots[i].value)
    ensures var r := ReadStruct(schema, now, Encode(FieldOf(schema, slots, i)) + tail);
            r.Ok? ==> SizeFits(r.value[i].value)
  {
    var f := FieldOf(schema, slots, i);
    assert schema[i] == KMap && f.ty == T_MAP && f.id == i + 1;
    hide ReadMap, WriteValue, Encode, Skip, ReadInt, FieldOf, Fits, ReadStruct;
    EncodedParts(f, tail);
    TakenRead(schema, now, Encode(f) + tail, i);
    MapBounded(f.payload + tail);
    var v := ReadValue(KMap, f.payload + tail);
    if v.Ok? {
      ReadMapsSmall(schema, now[i := Slot(v.value, true)], v.rest, i);
    }
  }

  /** The read loop at a field that it takes. */
  lemma TakenRead(schema: Schema, now: seq<Slot>, s: seq<Byte>, i: nat)
    requires |now| == |schema| && i < |schema| && |s| >= 3 && s[0] == Code(schema[i]) && ReadInt(2, s[1..]).Ok? &&
             ReadInt(2, s[1..]).value == i + 1
    ensures var v := ReadValue(schema[i], s[3..]);
            ReadStruct(schema, now, s) ==
            if v.Err? then Err(v.error) else ReadStruct(schema, now[i := Slot(v.value, true)], v.rest)
  {
    hide ReadInt, ReadValue, Skip;
  }

  /** The round trip works exactly for the objects whose maps have fewer than 2^31 entries. */
  lemma RoundTripExactly(schema: Schema, slots: seq<Slot>, prior: seq<Slot>, rest: seq<Byte>)
    requires Writable(schema, slots) && |prior| == |schema|
    ensures ReadStruct(schema, prior, WriteStruct(schema, slots) + rest) == Ok(AllSet(slots), rest) <==> SizesFit(slots)
  {
    if SizesFit(slots) {
      RoundTrip(schema, slots, prior, rest);
    } else {
      var i := FindTooLarge(slots, 0);
      TooLargeMisread(schema, slots, prior, i, 0, rest);
    }
  }

  function FindTooLarge(slots: seq<Slot>, k: nat): (i: nat)
    requires k <= |slots| && !SizesFit(slots) && forall j :: 0 <= j < k ==> SizeFits(slots[j].value)
    ensures FirstTooLarge(slots, i)
    decreases |slots| - k
  {
    if !SizeFits(slots[k].value) then k else FindTooLarge(slots, k + 1)
  }

  // ---------- An object with a map that is too large ----------

  /** n different keys of four bytes each. */
  ghost function BigDict(n: nat): Dict {
    if n == 0 then map[] else BigDict(n - 1)[BE(4, n - 1) := 0]
  }

  lemma {:induction false} BigDictKeys(n: nat)
    requires n <= 0x1_0000_0000
    ensures |BigDict(n)| == n && DictFits(BigDict(n))
    ensures forall k :: k in BigDict(n) ==> |k| == 4 && FromBE(k) < n
  {
    if n > 0 {
      BigDictKeys(n - 1);
      Pow256Four();
      BERoundTrip(4, n - 1);
      var m, k := BigDict(n - 1), BE(4, n - 1);
      assert k !in m;
      assert BigDict(n).Keys == m.Keys + {k};
      hide BE, FromBE, BigDict;
    }
  }

  /** The arguments of EnumPrintersW with a map of n entries. */
  ghost function Oversized(n: nat): seq<Slot> {
    [Slot(VBool(false), true), Slot(VInt(0), true), Slot(VString([]), true), Slot(VInt(0), true),
     Slot(VString([]), true), Slot(VInt(0), true), Slot(VInt(0), true), Slot(VInt(0), true),
     Slot(VMap(BigDict(n)), true)]
  }

  /** write() accepts a map of more than 2^31 - 1 entries, and what it sends is not read back, whatever follows. */
  lemma OversizedLost(n: nat, prior: seq<Slot>, rest: seq<Byte>)
    requires MAX_SIZE < n <= 0x1_0000_0000 && |prior| == 9
    ensures Writable(ARG_ENUM_PRINTERS, Oversized(n))
    ensures ReadStruct(ARG_ENUM_PRINTERS, prior, WriteStruct(ARG_ENUM_PRINTERS, Oversized(n)) + rest) !=
            Ok(AllSet(Oversized(n)), rest)
  {
    OversizedWritable(n);
    RoundTripExactly(ARG_ENUM_PRINTERS, Oversized(n), prior, rest);
    hide *;
  }

  lemma OversizedWritable(n: nat)
    requires MAX_SIZE < n <= 0x1_0000_0000
    ensures Writable(ARG_ENUM_PRINTERS, Oversized(n)) && !SizesFit(Oversized(n))
  {
    BigDictKeys(n);
    Pow256Four();
    hide BigDict, DictFits;
    assert !SizeFits(Oversized(n)[8].value);
  }
}
