/**
 What is left behind when a read or a write ends with an exception: the fields read so far, the bytes
 sent so far, and the recursion depth, which a failed write does not take back.
 */
module ThriftCut {
  import opened Bytes
  import opened ThriftSpec
  import opened ThriftStructs
  import opened ThriftLaws

  // ---------- Reading ----------

  /** The fields when the read loop stops, and the one that was being read then; |slots| if none was. */
  datatype Cut = Cut(slots: seq<Slot>, pos: nat)

  function Interrupted(schema: Schema, slots: seq<Slot>, s: seq<Byte>): (r: Cut)
    requires |slots| == |schema|
    ensures |r.slots| == |schema| && r.pos <= |schema|
    decreases |s|
  {
    if |s| < 3 || s[0] == T_STOP then Cut(slots, |schema|)
    else
      var ty, id := s[0], ReadInt(2, s[1..]).value;
      if Known(schema, ty, id) then
        ValueShrinks(schema[id - 1], s[3..]);
        var v := ReadValue(schema[id - 1], s[3..]);
        if v.Err? then Cut(slots, id - 1) else Interrupted(schema, slots[id - 1 := Slot(v.value, true)], v.rest)
      else
        var field := Skip(ty, s[3..]);
        if field.Err? then Cut(slots, |schema|) else Interrupted(schema, slots, field.rest)
  }

  /** The fields are those of c; only the value of the one that was being read is open. */
  predicate AllBut(fields: seq<Slot>, c: Cut) {
    && |fields| == |c.slots|
    && forall i :: 0 <= i < |fields| ==>
         (i != c.pos ==> fields[i] == c.slots[i]) && fields[i].isset == c.slots[i].isset
  }

  /** A read that is not interrupted ends with the object read. */
  lemma {:induction false} ReadToEnd(schema: Schema, slots: seq<Slot>, s: seq<Byte>)
    requires |slots| == |schema|
    ensures var r := ReadStruct(schema, slots, s); r.Ok? ==> Interrupted(schema, slots, s) == Cut(r.value, |schema|)
    decreases |s|
  {
    hide Skip, ReadValue, FromBE;
    if |s| >= 3 && s[0] != T_STOP {
      var ty, id := s[0], ReadInt(2, s[1..]).value;
      if Known(schema, ty, id) {
        ValueShrinks(schema[id - 1], s[3..]);
        var v := ReadValue(schema[id - 1], s[3..]);
        if v.Ok? {
          ReadToEnd(schema, slots[id - 1 := Slot(v.value, true)], v.rest);
        }
      } else {
        var field := Skip(ty, s[3..]);
        if field.Ok? {
          ReadToEnd(schema, slots, field.rest);
        }
      }
    }
  }

  /** One whole field is read before the interruption. */
  lemma FieldCut(schema: Schema, slots: seq<Slot>, f: Field, rest: seq<Byte>)
    requires |slots| == |schema| && GoodField(schema, f)
    ensures Interrupted(schema, slots, Encode(f) + rest) == Interrupted(schema, Assign(schema, slots, f), rest)
  {
    EncodedParts(f, rest);
    SkipLocal(f.ty, f.payload, rest);
    assert [] + rest == rest;
    if Taken(schema, f) {
      ValueLocal(schema[f.id - 1], f.payload, rest);
    }
    hide Skip, ReadValue, Encode, ReadInt, Code;
  }

  // ---------- Truncated input ----------

  lemma StringErrorLocal(s: seq<Byte>, x: seq<Byte>)
    ensures var r := ReadString(s); r.Err? && r.error != END_OF_FILE ==> ReadString(s + x) == r
  {
    IntLocal(4, s, x);
    if |s| >= 4 {
      hide ReadInt;
    }
  }

  lemma {:induction false} EntriesErrorLocal(n: nat, m: Dict, s: seq<Byte>, x: seq<Byte>)
    ensures var r := ReadEntries(n, m, s); r.Err? && r.error != END_OF_FILE ==> ReadEntries(n, m, s + x) == r
    decreases n
  {
    if n > 0 {
      StringLocal(s, x);
      StringErrorLocal(s, x);
      var key := ReadString(s);
      hide ReadString;
      if key.Ok? {
        IntLocal(4, key.rest, x);
        var val := ReadInt(4, key.rest);
        if val.Ok? {
          EntriesErrorLocal(n - 1, m[key.value := val.value], val.rest, x);
        }
      }
    }
  }

  lemma MapErrorLocal(s: seq<Byte>, x: seq<Byte>)
    ensures var r := ReadMap(s); r.Err? && r.error != END_OF_FILE ==> ReadMap(s + x) == r
  {
    if |s| >= 2 {
      TailLocal(s, x, 2);
      IntLocal(4, s[2..], x);
      var size := ReadInt(4, s[2..]);
      if size.Ok? && size.value >= 0 {
        EntriesErrorLocal(size.value, map[], size.rest, x);
      }
    }
    hide ReadEntries;
  }

  /** More input can only help where there was too little. */
  lemma ValueErrorLocal(k: Kind, s: seq<Byte>, x: seq<Byte>)
    ensures var r := ReadValue(k, s); r.Err? && r.error != END_OF_FILE ==> ReadValue(k, s + x) == r
  {
    StringErrorLocal(s, x);
    MapErrorLocal(s, x);
    hide ReadString, ReadMap;
  }

  /** A value that was not written to its end is missed. */
  lemma ValueTruncated(k: Kind, v: Value, n: nat)
    requires Fits(k, v) && SizeFits(v) && n < |WriteValue(k, v)|
    ensures ReadValue(k, WriteValue(k, v)[..n]) == Err(END_OF_FILE)
  {
    var s := WriteValue(k, v);
    hide WriteValue, ReadValue, Fits, SizeFits;
    WrittenWhole(k, v);
    assert s[..n] + s[n..] == s;
    ValueLocal(k, s[..n], s[n..]);
    ValueErrorLocal(k, s[..n], s[n..]);
  }

  /** What has still to come when the first m fields have been sent. */
  ghost function Remaining(schema: Schema, slots: seq<Slot>, m: nat): nat
    requires Writable(schema, slots) && m <= |schema|
  {
    |EncodeAll(FieldsFrom(schema, slots, m))|
  }

  /** The fields k to m have been read from the stream, the others are as before. */
  predicate PartlyRead(slots: seq<Slot>, before: seq<Slot>, k: nat, m: nat, c: Cut) {
    && |slots| == |before| == |c.slots| && k <= m <= |slots| && (c.pos == m || c.pos == |slots|)
    && forall i :: 0 <= i < |slots| ==> c.slots[i] == if k <= i < m then Slot(slots[i].value, true) else before[i]
  }

  lemma {:induction false} CutWritten(schema: Schema, slots: seq<Slot>, now: seq<Slot>, k: nat, n: nat) returns (m: nat)
    requires Writable(schema, slots) && SizesFit(slots) && |now| == |schema| && k <= |schema|
    requires n < Remaining(schema, slots, k)
    ensures k <= m <= |schema| && Remaining(schema, slots, k) - Remaining(schema, slots, m) <= n
    ensures m < |schema| ==> n < Remaining(schema, slots, k) - Remaining(schema, slots, m + 1)
    ensures var p := EncodeAll(FieldsFrom(schema, slots, k))[..n];
            && ReadStruct(schema, now, p) == Err(END_OF_FILE)
            && PartlyRead(slots, now, k, m, Interrupted(schema, now, p))
    decreases |schema| - k
  {
    hide ReadStruct, Interrupted, Fits, FieldOf, SizeFits, Encode, GoodField, FieldsFrom;
    if k == |schema| {
      m := k;
      NothingWritten(schema, slots, now, n);
    } else {
      var f := FieldOf(schema, slots, k);
      var size := |Encode(f)|;
      var all, tail := EncodeAll(FieldsFrom(schema, slots, k)), EncodeAll(FieldsFrom(schema, slots, k + 1));
      EncodedNext(schema, slots, k, []);
      assert all + [] == all && tail + [] == tail;
      hide EncodeAll;
      if n < size {
        m := k;
        assert all[..n] == Encode(f)[..n];
        FieldTruncated(schema, slots, now, k, n);
      } else {
        assert all[..n] == Encode(f) + tail[..n - size];
        WrittenField(schema, slots, k);
        FieldRead(schema, now, f, tail[..n - size]);
        FieldCut(schema, now, f, tail[..n - size]);
        var next := Assign(schema, now, f);
        WrittenAssigned(schema, slots, now, k);
        m := CutWritten(schema, slots, next, k + 1, n - size);
        hide *;
      }
    }
  }

  lemma NothingWritten(schema: Schema, slots: seq<Slot>, now: seq<Slot>, n: nat)
    requires Writable(schema, slots) && |now| == |schema| && n < Remaining(schema, slots, |schema|)
    ensures var p := EncodeAll(FieldsFrom(schema, slots, |schema|))[..n];
            ReadStruct(schema, now, p) == Err(END_OF_FILE) && Interrupted(schema, now, p) == Cut(now, |schema|)
  {
    hide Fits;
    assert EncodeAll([]) == [T_STOP] && [T_STOP][..0] == [];
  }

  lemma WrittenAssigned(schema: Schema, slots: seq<Slot>, now: seq<Slot>, k: nat)
    requires Writable(schema, slots) && |now| == |schema| && k < |schema| && SizeFits(slots[k].value)
    ensures GoodField(schema, FieldOf(schema, slots, k))
    ensures Assign(schema, now, FieldOf(schema, slots, k)) == now[k := Slot(slots[k].value, true)]
  {
    WrittenField(schema, slots, k);
    hide ReadValue, WriteValue, Fits, SizeFits, Taken, GoodField;
  }

  lemma FieldTruncated(schema: Schema, slots: seq<Slot>, now: seq<Slot>, k: nat, n: nat)
    requires Writable(schema, slots) && |now| == |schema| && k < |schema| && SizeFits(slots[k].value)
    requires n < |Encode(FieldOf(schema, slots, k))|
    ensures var c := Interrupted(schema, now, Encode(FieldOf(schema, slots, k))[..n]);
            c == Cut(now, k) || c == Cut(now, |schema|)
    ensures ReadStruct(schema, now, Encode(FieldOf(schema, slots, k))[..n]) == Err(END_OF_FILE)
  {
    var f := FieldOf(schema, slots, k);
    var p := Encode(f)[..n];
    WrittenField(schema, slots, k);
    hide WriteValue, ReadValue, Skip, Fits, SizeFits, GoodField, FieldOf;
    if n >= 3 {
      HeaderRead(f, n);
      assert f.payload == WriteValue(schema[k], slots[k].value) && f.id == k + 1 by {
        FieldParts(schema, slots, k);
      }
      ValueTruncated(schema[k], slots[k].value, n - 3);
    } else {
      assert n > 0 ==> p[0] == f.ty;
    }
    hide ReadInt, Encode;
  }

  lemma FieldParts(schema: Schema, slots: seq<Slot>, k: nat)
    requires Writable(schema, slots) && k < |schema|
    ensures FieldOf(schema, slots, k) == Field(Code(schema[k]), k + 1, WriteValue(schema[k], slots[k].value))
  {
  }

  lemma HeaderRead(f: Field, n: nat)
    requires 3 <= n <= |Encode(f)|
    ensures var p := Encode(f)[..n];
            p[0] == f.ty && p[3..] == f.payload[..n - 3] && ReadInt(2, p[1..]).Ok? && ReadInt(2, p[1..]).value == f.id
  {
    var p := Encode(f)[..n];
    Pow256Four();
    assert p[1..] == WriteInt(2, f.id) + f.payload[..n - 3];
    IntRoundTrip(2, f.id, f.payload[..n - 3]);
    hide ReadInt, WriteInt;
  }

  /**
   Input that breaks off before the end of what was written is refused; the fields that arrived whole
   are assigned, the others are as before, apart from the value of the one in which the input ends.
   */
  lemma TruncatedRead(schema: Schema, slots: seq<Slot>, prior: seq<Slot>, n: nat) returns (m: nat)
    requires Writable(schema, slots) && SizesFit(slots) && |prior| == |schema| && n < |WriteStruct(schema, slots)|
    ensures ReadStruct(schema, prior, WriteStruct(schema, slots)[..n]) == Err(END_OF_FILE)
    ensures PartlyRead(slots, prior, 0, m, Interrupted(schema, prior, WriteStruct(schema, slots)[..n]))
    ensures m <= |schema| && |WriteStruct(schema, slots)| - Remaining(schema, slots, m) <= n
    ensures m < |schema| ==> n < |WriteStruct(schema, slots)| - Remaining(schema, slots, m + 1)
  {
    m := CutWritten(schema, slots, prior, 0, n);
    hide ReadStruct, Interrupted, EncodeAll, FieldsFrom, Fits;
  }

  // ---------- What a write sends ----------

  /** The object has the kinds of values that its schema says, and integers of their width. */
  ghost predicate Typed(schema: Schema, fields: seq<Slot>) {
    |fields| == |schema| < 0x7FFF && forall i :: 0 <= i < |schema| ==> TypedValue(schema[i], fields[i].value)
  }

  ghost predicate TypedValue(k: Kind, v: Value) {
    && HasKind(v, k)
    && (k == KI32 ==> InRange(4, v.i))
    && (k == KI64 ==> InRange(8, v.i))
    && (k == KMap ==> TypedDict(v.m))
  }

  ghost predicate TypedDict(m: Dict) {
    forall key :: key in m ==> InRange(4, m[key])
  }

  function Unsigned32(m: Dict, k: seq<Byte>): nat
    requires TypedDict(m) && k in m
  {
    assert InRange(4, m[k]);
    Unsigned(4, m[k])
  }

  /** The entries for the given keys, up to the first key that is too long. */
  ghost function EntriesSent(m: Dict, keys: seq<seq<Byte>>): seq<Byte>
    requires TypedDict(m) && forall k :: k in keys ==> k in m
  {
    if keys == [] || !Short(keys[0]) then []
    else
      assert EntryFits(m, keys[0]);
      WriteEntry(m, keys[0]) + EntriesSent(m, keys[1..])
  }

  ghost function MapSent(m: Dict): seq<Byte>
    requires TypedDict(m)
  {
    [T_STRING, T_I32] + WriteSize(|m|) + EntriesSent(m, InOrder(m.Keys))
  }

  ghost function ValueSent(k: Kind, v: Value): seq<Byte>
    requires TypedValue(k, v)
  {
    match k
    case KBool => [if v.b then 1 else 0]
    case KI32 => WriteInt(4, v.i)
    case KI64 => WriteInt(8, v.i)
    case KString => if Short(v.s) then WriteString(v.s) else []
    case KMap => MapSent(v.m)
  }

  /** From field i on: field after field, up to the one that is refused, or to the stop byte. */
  ghost function FieldsSent(schema: Schema, fields: seq<Slot>, i: nat): seq<Byte>
    requires Typed(schema, fields) && i <= |schema|
    decreases |schema| - i
  {
    if i == |schema| then [T_STOP]
    else
      Pow256Four();
      var header := [Code(schema[i])] + WriteInt(2, i + 1);
      var v := fields[i].value;
      header + ValueSent(schema[i], v) + if Fits(schema[i], v) then FieldsSent(schema, fields, i + 1) else []
  }

  lemma {:induction false} EntriesSentWhole(m: Dict, keys: seq<seq<Byte>>)
    requires TypedDict(m) && forall k :: k in keys ==> k in m && EntryFits(m, k)
    ensures EntriesSent(m, keys) == WriteEntries(m, keys)
  {
    if keys != [] {
      assert EntryFits(m, keys[0]);
      EntriesSentWhole(m, keys[1..]);
    }
    hide WriteEntry;
  }

  lemma ValueSentWhole(k: Kind, v: Value)
    requires TypedValue(k, v) && Fits(k, v)
    ensures ValueSent(k, v) == WriteValue(k, v)
  {
    if k == KMap {
      EntriesSentWhole(v.m, InOrder(v.m.Keys));
    }
    hide EntriesSent, WriteEntries, InOrder;
  }

  /** Without a value that is refused, this is the whole struct. */
  lemma {:induction false} SentWhole(schema: Schema, fields: seq<Slot>, i: nat)
    requires Typed(schema, fields) && Writable(schema, fields) && i <= |schema|
    ensures FieldsSent(schema, fields, i) == EncodeAll(FieldsFrom(schema, fields, i))
    decreases |schema| - i
  {
    hide WriteValue, ValueSent, Fits, TypedValue;
    if i < |schema| {
      SentWhole(schema, fields, i + 1);
      ValueSentWhole(schema[i], fields[i].value);
      assert FieldsFrom(schema, fields, i)[1..] == FieldsFrom(schema, fields, i + 1);
    }
  }

  // ---------- A write that was cut short ----------

  lemma {:induction false} EntriesMissing(n: nat, acc: Dict, m: Dict, keys: seq<seq<Byte>>)
    requires TypedDict(m) && (forall k :: k in keys ==> k in m) && |keys| <= n
    requires exists k :: k in keys && !Short(k)
    ensures ReadEntries(n, acc, EntriesSent(m, keys)) == Err(END_OF_FILE)
    decreases keys
  {
    hide WriteEntry;
    var k := keys[0];
    if Short(k) {
      assert EntryFits(m, k);
      EntryRoundTrip(n, acc, m, k, EntriesSent(m, keys[1..]));
      EntriesMissing(n - 1, acc[k := m[k]], m, keys[1..]);
    } else {
      assert ReadString([]) == Err(END_OF_FILE);
    }
  }

  lemma MapMissing(m: Dict)
    requires TypedDict(m) && |m| <= MAX_SIZE && exists k :: k in m && !Short(k)
    ensures ReadMap(MapSent(m)) == Err(END_OF_FILE)
  {
    var keys := InOrder(m.Keys);
    var entries := EntriesSent(m, keys);
    assert MapSent(m)[2..] == WriteSize(|m|) + entries;
    SizeRead(|m|, entries);
    EntriesMissing(|m|, map[], m, keys);
    hide ReadEntries, EntriesSent, InOrder, WriteSize, ReadInt;
  }

  lemma ValueMissing(k: Kind, v: Value)
    requires TypedValue(k, v) && !Fits(k, v) && SizeFits(v)
    ensures ReadValue(k, ValueSent(k, v)) == Err(END_OF_FILE)
  {
    if k == KMap {
      var key :| key in v.m && !EntryFits(v.m, key);
      assert !Short(key);
      MapMissing(v.m);
    }
    hide ReadMap, MapSent;
  }

  lemma GoodWritten(schema: Schema, i: nat, v: Value)
    requires i < |schema| < 0x7FFF && Fits(schema[i], v) && SizeFits(v)
    ensures GoodField(schema, Field(Code(schema[i]), i + 1, WriteValue(schema[i], v)))
  {
    WrittenWhole(schema[i], v);
    hide ReadValue, WriteValue, Skip, Fits, SizeFits;
  }

  /** The first part of what is sent from field i on. */
  lemma SentParts(schema: Schema, fields: seq<Slot>, i: nat)
    requires Typed(schema, fields) && i < |schema|
    ensures var v := fields[i].value;
            var s := FieldsSent(schema, fields, i);
            if Fits(schema[i], v) then
              s == Encode(Field(Code(schema[i]), i + 1, WriteValue(schema[i], v))) + FieldsSent(schema, fields, i + 1)
            else
              && |s| >= 3 && s[0] == Code(schema[i]) && s[3..] == ValueSent(schema[i], v)
              && ReadInt(2, s[1..]).Ok? && ReadInt(2, s[1..]).value == i + 1
  {
    var v := fields[i].value;
    Pow256Four();
    assert TypedValue(schema[i], v);
    if Fits(schema[i], v) {
      ValueSentWhole(schema[i], v);
    } else {
      var s := FieldsSent(schema, fields, i);
      assert s[1..] == WriteInt(2, i + 1) + ValueSent(schema[i], v);
      IntRoundTrip(2, i + 1, ValueSent(schema[i], v));
      assert s[3..] == ValueSent(schema[i], v);
    }
    hide ReadInt, WriteInt, ValueSent, WriteValue, Fits, TypedValue;
  }

  lemma SentFieldRead(schema: Schema, fields: seq<Slot>, now: seq<Slot>, i: nat) returns (next: seq<Slot>)
    requires Typed(schema, fields) && |now| == |schema| && i < |schema|
    requires Fits(schema[i], fields[i].value) && SizeFits(fields[i].value)
    ensures |next| == |schema|
    ensures ReadStruct(schema, now, FieldsSent(schema, fields, i)) ==
            ReadStruct(schema, next, FieldsSent(schema, fields, i + 1))
  {
    var f := Field(Code(schema[i]), i + 1, WriteValue(schema[i], fields[i].value));
    SentParts(schema, fields, i);
    GoodWritten(schema, i, fields[i].value);
    hide *;
    FieldRead(schema, now, f, FieldsSent(schema, fields, i + 1));
    next := Assign(schema, now, f);
  }

  lemma SentFieldRefused(schema: Schema, fields: seq<Slot>, now: seq<Slot>, i: nat)
    requires Typed(schema, fields) && |now| == |schema| && i < |schema|
    requires !Fits(schema[i], fields[i].value) && SizeFits(fields[i].value)
    ensures ReadStruct(schema, now, FieldsSent(schema, fields, i)) == Err(END_OF_FILE)
  {
    SentParts(schema, fields, i);
    assert TypedValue(schema[i], fields[i].value);
    hide *;
    ValueMissing(schema[i], fields[i].value);
    TakenRead(schema, now, FieldsSent(schema, fields, i), i);
  }

  /** What a failed write has sent is never taken for a whole struct. */
  lemma {:induction false} FailedWriteUnread(schema: Schema, fields: seq<Slot>, now: seq<Slot>, i: nat)
    requires Typed(schema, fields) && SizesFit(fields) && |now| == |schema| && i <= |schema|
    requires exists j :: i <= j < |schema| && !Fits(schema[j], fields[j].value)
    ensures ReadStruct(schema, now, FieldsSent(schema, fields, i)) == Err(END_OF_FILE)
    decreases |schema| - i
  {
    hide ReadStruct, FieldsSent, TypedValue, Fits, SizeFits;
    if Fits(schema[i], fields[i].value) {
      var next := SentFieldRead(schema, fields, now, i);
      FailedWriteUnread(schema, fields, next, i + 1);
    } else {
      SentFieldRefused(schema, fields, now, i);
    }
  }

  // ---------- The recursion depth ----------

  const RECURSION_LIMIT: nat := 64

  /** A 32-bit counter, one higher. */
  function Deeper(depth: nat): nat {
    (depth + 1) % 0x1_0000_0000
  }

  datatype Object = Object(schema: Schema, fields: seq<Slot>)

  /** write() succeeds. */
  ghost predicate Accepted(depth: nat, o: Object) {
    Deeper(depth) <= RECURSION_LIMIT && Writable(o.schema, o.fields)
  }

  /** The depth of a protocol object on which these objects have been written, or tried. */
  ghost function DepthAfter(objs: seq<Object>): nat {
    if objs == [] then 0
    else
      var before := DepthAfter(objs[..|objs| - 1]);
      if Accepted(before, objs[|objs| - 1]) then before else Deeper(before)
  }

  ghost function Refused(objs: seq<Object>): nat {
    if objs == [] then 0
    else
      var o := objs[|objs| - 1];
      Refused(objs[..|objs| - 1]) + if Writable(o.schema, o.fields) then 0 else 1
  }

  lemma {:induction false} DepthGrows(objs: seq<Object>)
    requires |objs| < 0x1_0000_0000
    ensures DepthAfter(objs) <= |objs|
    ensures if Refused(objs) < RECURSION_LIMIT then DepthAfter(objs) == Refused(objs)
            else RECURSION_LIMIT <= DepthAfter(objs)
  {
    hide Writable;
    if objs != [] {
      DepthGrows(objs[..|objs| - 1]);
    }
  }

  /** A typed object can be written exactly when no string and no key is longer than 2^31 - 1 bytes. */
  lemma WritableMeans(schema: Schema, fields: seq<Slot>)
    requires Typed(schema, fields)
    ensures Writable(schema, fields) <==>
              forall i :: 0 <= i < |schema| ==>
                && (fields[i].value.VString? ==> |fields[i].value.s| < 0x8000_0000)
                && (fields[i].value.VMap? ==> forall key :: key in fields[i].value.m ==> |key| < 0x8000_0000)
  {
    forall i | 0 <= i < |schema|
      ensures Fits(schema[i], fields[i].value) <==>
              && (fields[i].value.VString? ==> |fields[i].value.s| < 0x8000_0000)
              && (fields[i].value.VMap? ==> forall key :: key in fields[i].value.m ==> |key| < 0x8000_0000)
    {
      assert TypedValue(schema[i], fields[i].value);
      FitsMeans(schema[i], fields[i].value);
    }
    hide Fits, TypedValue;
  }

  lemma FitsMeans(k: Kind, v: Value)
    requires TypedValue(k, v)
    ensures Fits(k, v) <==>
            && (v.VString? ==> |v.s| < 0x8000_0000)
            && (v.VMap? ==> forall key :: key in v.m ==> |key| < 0x8000_0000)
  {
    if v.VMap? {
      forall key | key in v.m
        ensures EntryFits(v.m, key) <==> |key| < 0x8000_0000
      {
      }
      hide EntryFits;
    }
    hide InRange;
  }

  /**
   A failed write leaves the depth counter one higher. So an object is written exactly if it is writable
   and fewer than 64 before it, on the same protocol object, were not.
   */
  lemma WrittenExactly(objs: seq<Object>, k: nat)
    requires k < |objs| < 0x1_0000_0000
    ensures Accepted(DepthAfter(objs[..k]), objs[k]) <==>
            Writable(objs[k].schema, objs[k].fields) && Refused(objs[..k]) < 64
  {
    DepthGrows(objs[..k]);
    hide Writable, DepthAfter, Refused;
  }
}
