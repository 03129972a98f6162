/** The binary protocol over a transport, and the argument structs that are read from it and written to it. */
module Thrift {
  import opened Bytes
  import opened ThriftSpec
  import opened ThriftStructs
  import opened ThriftLaws
  import opened ThriftCut

  /** A return value, or the exception thrown instead. */
  datatype Result<+T> = Success(value: T) | Failure(error: Error)

  /** Byte counts are uint32_t. */
  function Count(n: int): nat {
    n % 0x1_0000_0000
  }

  lemma CountAdds(a: int, b: int)
    ensures Count(Count(a) + Count(b)) == Count(a + b) && Count(Count(a) + b) == Count(a + b)
  {
  }

  /** The count of a first part and that of a second part make the count of both. */
  lemma CountParts(before: seq<Byte>, middle: seq<Byte>, after: seq<Byte>)
    ensures Count(Count(|before| - |middle|) + Count(|middle| - |after|)) == Count(|before| - |after|)
  {
    CountAdds(|before| - |middle|, |middle| - |after|);
  }

  lemma CountNothing(s: seq<Byte>)
    ensures Count(|s| - |s|) == 0
  {
  }

  /** A reading operation did what the function p says, and counted the bytes it consumed. */
  ghost predicate Did<T>(r: Result<T>, xfer: nat, p: Parsed<T>, before: seq<Byte>, after: seq<Byte>) {
    if p.Ok? then r.Success? && r.value == p.value && after == p.rest && |after| <= |before| &&
      xfer == Count(|before| - |after|)
    else r == Failure(p.error)
  }

  class Protocol {
    /** What is still to be received. */
    var input: seq<Byte>
    /** What has been sent. */
    var output: seq<Byte>
    /** recursion_depth_, a 32-bit counter. */
    var depth: nat

    constructor (input: seq<Byte>)
      ensures this.input == input && output == [] && depth == 0
    {
      this.input, output, depth := input, [], 0;
    }

    /** incrementRecursionDepth: the counter stays one higher even if that is too much. */
    method IncrementRecursionDepth() returns (r: Result<()>)
      modifies this`depth
      ensures depth == Deeper(old(depth))
      ensures r == if 64 < depth then Failure(DEPTH_LIMIT) else Success(())
    {
      depth := (depth + 1) % 0x1_0000_0000;
      r := if RECURSION_LIMIT < depth then Failure(DEPTH_LIMIT) else Success(());
    }

    /** decrementRecursionDepth */
    method DecrementRecursionDepth()
      modifies this`depth
      ensures old(depth) < 0x1_0000_0000 ==> Deeper(depth) == old(depth)
      ensures depth < 0x1_0000_0000
    {
      depth := (depth - 1) % 0x1_0000_0000;
    }

    // ---------- Reading ----------

    method ReadByte() returns (r: Result<Byte>, xfer: nat)
      modifies this`input
      ensures if old(input) == [] then r == Failure(END_OF_FILE)
              else r == Success(old(input)[0]) && input == old(input)[1..] && xfer == Count(|old(input)| - |input|)
    {
      xfer := 1;
      if input == [] {
        return Failure(END_OF_FILE), 0;
      }
      r := Success(input[0]);
      input := input[1..];
    }

    /** readI16, readI32 and readI64. */
    method ReadI(n: nat) returns (r: Result<int>, xfer: nat)
      modifies this`input
      ensures Did(r, xfer, ReadInt(n, old(input)), old(input), input)
    {
      xfer := Count(n);
      if |input| < n {
        return Failure(END_OF_FILE), 0;
      }
      r := Success(Signed(n, FromBE(input[..n])));
      input := input[n..];
    }

    /** readString and readBinary. */
    method ReadStr() returns (r: Result<seq<Byte>>, xfer: nat)
      modifies this`input
      ensures Did(r, xfer, ReadString(old(input)), old(input), input)
    {
      hide ReadInt;
      var size;
      size, xfer := ReadI(4);
      if size.Failure? {
        return Failure(size.error), 0;
      }
      if size.value < 0 {
        return Failure(NEGATIVE_SIZE), 0;
      }
      if |input| < size.value {
        return Failure(END_OF_FILE), 0;
      }
      r := Success(input[..size.value]);
      CountAdds(|old(input)| - |input|, size.value);
      input := input[size.value..];
      xfer := Count(xfer + size.value);
    }

    /** readBool, and the other fixed-size values whose bytes skip() discards. */
    method Discard(n: nat) returns (r: Result<()>, xfer: nat)
      modifies this`input
      ensures Did(r, xfer, Drop(n, old(input)), old(input), input)
    {
      xfer := Count(n);
      if |input| < n {
        return Failure(END_OF_FILE), 0;
      }
      r := Success(());
      input := input[n..];
    }

    /** readMapBegin, readListBegin and readSetBegin: the element types and the size. */
    method ReadSize(n: nat) returns (r: Result<(seq<Byte>, nat)>, xfer: nat)
      modifies this`input
      ensures var s := old(input);
              var size := if |s| < n then Err(END_OF_FILE) else ReadInt(4, s[n..]);
              if size.Err? then r == Failure(size.error)
              else if size.value < 0 then r == Failure(NEGATIVE_SIZE)
              else
                && r == Success((s[..n], size.value)) && input == size.rest
                && |input| == |s| - n - 4 && xfer == Count(|s| - |input|)
    {
      xfer := 0;
      if |input| < n {
        return Failure(END_OF_FILE), 0;
      }
      var types := input[..n];
      input := input[n..];
      var size;
      size, xfer := ReadI(4);
      if size.Failure? {
        return Failure(size.error), 0;
      }
      if size.value < 0 {
        return Failure(NEGATIVE_SIZE), 0;
      }
      r := Success((types, size.value));
      CountAdds(4, n);
      xfer := Count(xfer + n);
    }

    // ---------- Skipping ----------

    /** skip(): reads a value of the given type and forgets it. */
    method SkipValue(ty: Byte) returns (r: Result<()>, xfer: nat)
      modifies this`input
      ensures Did(r, xfer, Skip(ty, old(input)), old(input), input)
      decreases |input|, 1
    {
      hide ReadInt, ReadString;
      xfer := 0;
      if ty == T_BOOL || ty == T_BYTE {
        r, xfer := Discard(1);
      } else if ty == T_I16 {
        r, xfer := Discard(2);
      } else if ty == T_I32 {
        r, xfer := Discard(4);
      } else if ty == T_I64 || ty == T_DOUBLE {
        r, xfer := Discard(8);
      } else if ty == T_STRING {
        var str;
        str, xfer := ReadStr();
        r := if str.Success? then Success(()) else Failure(str.error);
      } else if ty == T_STRUCT {
        r, xfer := SkipStruct();
      } else if ty == T_MAP {
        r, xfer := SkipMap();
      } else if ty == T_SET || ty == T_LIST {
        r, xfer := SkipList();
      } else {
        r := Success(());
      }
    }

    /** readFieldBegin: the type and, unless it is the stop byte, the identifier of the next field. */
    method ReadFieldBegin() returns (r: Result<(Byte, int)>, xfer: nat)
      modifies this`input
      ensures var s := old(input);
              if s == [] || (s[0] != T_STOP && |s| < 3) then r == Failure(END_OF_FILE)
              else
                && input == s[if s[0] == T_STOP then 1 else 3..] && xfer == Count(|s| - |input|)
                && r == Success((s[0], if s[0] == T_STOP then 0 else ReadInt(2, s[1..]).value))
    {
      ghost var s := input;
      var ty, k;
      ty, xfer := ReadByte();
      if ty.Failure? {
        return Failure(ty.error), 0;
      }
      if ty.value == T_STOP {
        return Success((T_STOP, 0)), xfer;
      }
      var id;
      id, k := ReadI(2);
      if id.Failure? {
        return Failure(id.error), 0;
      }
      r := Success((ty.value, id.value));
      CountParts(s, s[1..], input);
      xfer := Count(xfer + k);
    }

    method SkipStruct() returns (r: Result<()>, xfer: nat)
      modifies this`input
      ensures Did(r, xfer, SkipFields(old(input)), old(input), input)
      decreases |input|, 0
    {
      hide Count, Skip, ReadInt;
      ghost var s := input;
      CountNothing(s);
      xfer := 0;
      while true
        invariant |input| <= |s| && xfer == Count(|s| - |input|)
        invariant SkipFields(s) == SkipFields(input)
        decreases |input|
      {
        ghost var s1 := input;
        var begin, k := ReadFieldBegin();
        if begin.Failure? {
          return Failure(begin.error), 0;
        }
        CountParts(s, s1, input);
        xfer := Count(xfer + k);
        if begin.value.0 == T_STOP {
          return Success(()), xfer;
        }
        ghost var s2 := input;
        r, k := SkipValue(begin.value.0);
        if r.Failure? {
          return r, 0;
        }
        CountParts(s, s2, input);
        xfer := Count(xfer + k);
      }
    }

    /** Skips size keys and values in turn. */
    method SkipEntries(keyType: Byte, valType: Byte, size: nat) returns (r: Result<()>, xfer: nat)
      modifies this`input
      ensures Did(r, xfer, SkipItems([keyType, valType], 2 * size, old(input)), old(input), input)
      decreases |input|, 2
    {
      hide Count, Skip, SkipItems;
      ghost var s := input;
      CountNothing(s);
      xfer := 0;
      var i := 0;
      while i < size
        invariant i <= size && |input| <= |s| && xfer == Count(|s| - |input|)
        invariant SkipItems([keyType, valType], 2 * size, s) == SkipItems([keyType, valType], 2 * (size - i), input)
        decreases size - i
      {
        SkipPair(keyType, valType, size - i, input);
        ghost var s1 := input;
        var k;
        r, k := SkipValue(keyType);
        if r.Failure? {
          return r, 0;
        }
        CountParts(s, s1, input);
        xfer := Count(xfer + k);
        ghost var s2 := input;
        r, k := SkipValue(valType);
        if r.Failure? {
          return r, 0;
        }
        CountParts(s, s2, input);
        xfer := Count(xfer + k);
        i := i + 1;
      }
      NothingSkipped([keyType, valType], input);
      r := Success(());
    }

    /** Skips size elements. */
    method SkipElements(elemType: Byte, size: nat) returns (r: Result<()>, xfer: nat)
      modifies this`input
      ensures Did(r, xfer, SkipItems([elemType], size, old(input)), old(input), input)
      decreases |input|, 2
    {
      hide Count, Skip;
      ghost var s := input;
      CountNothing(s);
      assert [elemType][1..] + [elemType] == [elemType];
      xfer := 0;
      var i := 0;
      while i < size
        invariant i <= size && |input| <= |s| && xfer == Count(|s| - |input|)
        invariant SkipItems([elemType], size, s) == SkipItems([elemType], size - i, input)
        decreases size - i
      {
        ghost var s1 := input;
        var k;
        r, k := SkipValue(elemType);
        if r.Failure? {
          return r, 0;
        }
        CountParts(s, s1, input);
        xfer := Count(xfer + k);
        i := i + 1;
      }
      r := Success(());
    }

    method SkipMap() returns (r: Result<()>, xfer: nat)
      modifies this`input
      ensures Did(r, xfer, Skip(T_MAP, old(input)), old(input), input)
      decreases |input|, 0
    {
      hide Count, SkipItems, ReadInt;
      ghost var s := input;
      var size, k;
      size, xfer := ReadSize(2);
      if size.Failure? {
        return Failure(size.error), 0;
      }
      ghost var s1 := input;
      assert s[..2] == [s[0], s[1]];
      r, k := SkipEntries(size.value.0[0], size.value.0[1], size.value.1);
      CountParts(s, s1, input);
      xfer := Count(xfer + k);
    }

    /** Lists and sets look the same on the wire. */
    method SkipList() returns (r: Result<()>, xfer: nat)
      modifies this`input
      ensures Did(r, xfer, Skip(T_LIST, old(input)), old(input), input)
      decreases |input|, 0
    {
      hide Count, SkipItems, ReadInt;
      ghost var s := input;
      var size, k;
      size, xfer := ReadSize(1);
      if size.Failure? {
        return Failure(size.error), 0;
      }
      ghost var s1 := input;
      assert s[..1] == [s[0]];
      r, k := SkipElements(size.value.0[0], size.value.1);
      CountParts(s, s1, input);
      xfer := Count(xfer + k);
    }

    // ---------- Writing ----------

    method WriteByte(b: Byte) returns (xfer: nat)
      modifies this`output
      ensures output == old(output) + [b] && xfer == Count(|output| - |old(output)|)
    {
      output := output + [b];
      xfer := 1;
    }

    /** writeI16, writeI32 and writeI64; x is already the unsigned image of the value. */
    method WriteI(n: nat, x: nat) returns (xfer: nat)
      modifies this`output
      ensures output == old(output) + BE(n, x) && xfer == Count(|output| - |old(output)|)
    {
      output := output + BE(n, x);
      xfer := Count(n);
    }

    /** writeString and writeBinary: strings too long for a 32-bit size are refused. */
    method WriteStr(str: seq<Byte>) returns (r: Result<()>, xfer: nat)
      modifies this`output
      ensures if Short(str) then
              r == Success(()) && output == old(output) + WriteString(str) && xfer == Count(|output| - |old(output)|)
              else r == Failure(SIZE_LIMIT) && output == old(output)
    {
      hide Count, BE;
      if |str| > MAX_SIZE {
        return Failure(SIZE_LIMIT), 0;
      }
      Pow256Four();
      ghost var o := output;
      xfer := WriteI(4, |str|);
      CountAdds(|output| - |o|, |str|);
      output := output + str;
      assert output == o + WriteString(str);
      xfer := Count(xfer + |str|);
      r := Success(());
    }

    /** writeFieldBegin */
    method WriteFieldBegin(ty: Byte, id: nat) returns (xfer: nat)
      requires id < 0x8000
      modifies this`output
      ensures Pow256(2) == 0x1_0000 && InRange(2, id)
      ensures output == old(output) + ([ty] + WriteInt(2, id)) && xfer == Count(|output| - |old(output)|)
    {
      Pow256Four();
      ghost var o := output;
      xfer := WriteByte(ty);
      var k := WriteI(2, id);
      assert output == o + ([ty] + WriteInt(2, id));
      xfer := Count(xfer + k);
    }

    /** writeMapBegin, with the cast of the size to 32 bits. */
    method WriteMapBegin(keyType: Byte, valType: Byte, size: nat) returns (xfer: nat)
      modifies this`output
      ensures output == old(output) + ([keyType, valType] + WriteSize(size)) && xfer == Count(|output| - |old(output)|)
    {
      ghost var o := output;
      xfer := WriteByte(keyType);
      var k := WriteByte(valType);
      xfer := Count(xfer + k);
      k := WriteI(4, size % 0x1_0000_0000);
      assert output == o + ([keyType, valType] + WriteSize(size));
      xfer := Count(xfer + k);
    }
  }

  lemma IntTyped(n: nat, s: seq<Byte>)
    ensures var r := ReadInt(n, s); r.Ok? ==> InRange(n, r.value)
  {
    if |s| >= n {
      ThriftSpec.FromBEBound(s[..n]);
    }
  }

  lemma {:induction false} EntriesTyped(n: nat, m: Dict, s: seq<Byte>)
    requires TypedDict(m)
    ensures var r := ReadEntries(n, m, s); r.Ok? ==> TypedDict(r.value)
    decreases n
  {
    hide ReadString, ReadInt, InRange;
    if n > 0 {
      var key := ReadString(s);
      if key.Ok? {
        IntTyped(4, key.rest);
        var val := ReadInt(4, key.rest);
        if val.Ok? {
          EntriesTyped(n - 1, m[key.value := val.value], val.rest);
        }
      }
    }
  }

  lemma ValueTyped(k: Kind, s: seq<Byte>)
    ensures var r := ReadValue(k, s); r.Ok? ==> TypedValue(k, r.value)
  {
    IntTyped(4, s);
    IntTyped(8, s);
    if |s| >= 2 {
      var size := ReadInt(4, s[2..]);
      if size.Ok? && size.value >= 0 {
        EntriesTyped(size.value, map[], size.rest);
      }
    }
    hide ReadInt, ReadString, ReadEntries, InRange, TypedDict;
  }

  /** All fields zero or empty, none set. */
  function Defaults(schema: Schema): (r: seq<Slot>)
    requires |schema| < 0x7FFF
    ensures Typed(schema, r) && forall i :: 0 <= i < |r| ==> !r[i].isset
  {
    Pow256Values();
    seq(|schema|, i requires 0 <= i < |schema| => Slot(Zero(schema[i]), false))
  }

  function Zero(k: Kind): Value {
    match k
    case KBool => VBool(false)
    case KI32 => VInt(0)
    case KI64 => VInt(0)
    case KString => VString([])
    case KMap => VMap(map[])
  }

  /**
   ArgGetDefaultPrinterW, ArgEnumPrintersW, ArgDocumentPropertiesW and ArgGetPrinterW: the generated
   classes differ in their fields only, which the schema lists.
   */
  class ArgStruct {
    const schema: Schema
    var fields: seq<Slot>

    ghost predicate Valid()
      reads this
    {
      Typed(schema, fields)
    }

    constructor ArgGetDefaultPrinterW()
      ensures schema == ARG_GET_DEFAULT_PRINTER && fields == Defaults(schema) && Valid()
    {
      schema, fields := ARG_GET_DEFAULT_PRINTER, Defaults(ARG_GET_DEFAULT_PRINTER);
    }

    constructor ArgEnumPrintersW()
      ensures schema == ARG_ENUM_PRINTERS && fields == Defaults(schema) && Valid()
    {
      schema, fields := ARG_ENUM_PRINTERS, Defaults(ARG_ENUM_PRINTERS);
    }

    constructor ArgDocumentPropertiesW()
      ensures schema == ARG_DOCUMENT_PROPERTIES && fields == Defaults(schema) && Valid()
    {
      schema, fields := ARG_DOCUMENT_PROPERTIES, Defaults(ARG_DOCUMENT_PROPERTIES);
    }

    constructor ArgGetPrinterW()
      ensures schema == ARG_GET_PRINTER && fields == Defaults(schema) && Valid()
    {
      schema, fields := ARG_GET_PRINTER, Defaults(ARG_GET_PRINTER);
    }

    /** Reads a map into field pos, entry by entry. */
    method ReadDict(prot: Protocol, pos: nat) returns (r: Result<()>, xfer: nat)
      requires pos < |fields|
      modifies this`fields, prot`input
      ensures var p := ReadMap(old(prot.input));
              if p.Err? then r == Failure(p.error)
              else
                && r.Success? && prot.input == p.rest && |prot.input| <= |old(prot.input)| &&
                   xfer == Count(|old(prot.input)| - |prot.input|)
                && fields == old(fields)[pos := Slot(VMap(p.value), old(fields)[pos].isset)]
      ensures AllBut(fields, Cut(old(fields), pos))
    {
      hide Count, ReadInt, ReadString;
      ghost var s, isset := prot.input, fields[pos].isset;
      fields := fields[pos := fields[pos].(value := VMap(map[]))];
      var size;
      size, xfer := prot.ReadSize(2);
      if size.Failure? {
        return Failure(size.error), 0;
      }
      ghost var items, n := prot.input, size.value.1;
      var i := 0;
      while i < size.value.1
        invariant i <= n && |prot.input| <= |items| && xfer == Count(|s| - |prot.input|)
        invariant |fields| == |old(fields)| && fields[pos].value.VMap? && fields[pos].isset == isset
        invariant forall j :: 0 <= j < |fields| && j != pos ==> fields[j] == old(fields)[j]
        invariant ReadEntries(n, map[], items) == ReadEntries(n - i, fields[pos].value.m, prot.input)
        decreases n - i
      {
        ghost var s1 := prot.input;
        var key, k := prot.ReadStr();
        if key.Failure? {
          return Failure(key.error), 0;
        }
        CountParts(s, s1, prot.input);
        xfer := Count(xfer + k);
        ghost var s2 := prot.input;
        var val;
        val, k := prot.ReadI(4);
        if val.Failure? {
          return Failure(val.error), 0;
        }
        CountParts(s, s2, prot.input);
        xfer := Count(xfer + k);
        fields := fields[pos := fields[pos].(value := VMap(fields[pos].value.m[key.value := val.value]))];
        i := i + 1;
      }
      r := Success(());
    }

    /** One case of the generated switch: reads field pos and marks it as set. */
    method ReadField(prot: Protocol, pos: nat) returns (r: Result<()>, xfer: nat)
      requires Valid() && pos < |schema|
      modifies this`fields, prot`input
      ensures var p := ReadValue(schema[pos], old(prot.input));
              if p.Err? then r == Failure(p.error)
              else
                && r.Success? && prot.input == p.rest && |prot.input| <= |old(prot.input)| &&
                   xfer == Count(|old(prot.input)| - |prot.input|)
                && fields == old(fields)[pos := Slot(p.value, true)]
      ensures r.Success? ==> Valid()
      ensures r.Failure? ==> AllBut(fields, Cut(old(fields), pos))
    {
      ValueTyped(schema[pos], prot.input);
      hide Count, ReadInt, ReadString, ReadMap, TypedValue;
      var v := fields[pos].value;
      match schema[pos] {
        case KBool =>
          var b;
          b, xfer := prot.ReadByte();
          if b.Failure? {
            return Failure(b.error), 0;
          }
          v := VBool(b.value != 0);
        case KI32 =>
          var i;
          i, xfer := prot.ReadI(4);
          if i.Failure? {
            return Failure(i.error), 0;
          }
          v := VInt(i.value);
        case KI64 =>
          var i;
          i, xfer := prot.ReadI(8);
          if i.Failure? {
            return Failure(i.error), 0;
          }
          v := VInt(i.value);
        case KString =>
          var str;
          str, xfer := prot.ReadStr();
          if str.Failure? {
            return Failure(str.error), 0;
          }
          v := VString(str.value);
        case KMap =>
          r, xfer := ReadDict(prot, pos);
          if r.Failure? {
            return r, 0;
          }
          v := fields[pos].value;
      }
      fields := fields[pos := Slot(v, true)];
      r := Success(());
    }

    /**
     read(): takes the fields it knows and skips all others up to the stop byte. However it ends, the fields
     are those read so far; an exception leaves open the value of the field that was being read.
     */
    method Read(prot: Protocol) returns (r: Result<nat>)
      requires Valid()
      modifies this`fields, prot`input
      ensures var p := ReadStruct(schema, old(fields), old(prot.input));
              if p.Err? then r == Failure(p.error)
              else
                && r == Success(Count(|old(prot.input)| - |p.rest|))
                && prot.input == p.rest && fields == p.value && Valid()
      ensures |old(fields)| == |schema| && AllBut(fields, Interrupted(schema, old(fields), old(prot.input)))
    {
      hide Count, Skip, ReadInt, ReadValue, Typed;
      ghost var s, fields0 := prot.input, fields;
      SameSize(schema, fields);
      CountNothing(s);
      var xfer := 0;
      while true
        invariant Valid() && |fields| == |schema| && |prot.input| <= |s| && xfer == Count(|s| - |prot.input|)
        invariant ReadStruct(schema, fields0, s) == ReadStruct(schema, fields, prot.input)
        invariant Interrupted(schema, fields0, s) == Interrupted(schema, fields, prot.input)
        decreases |prot.input|
      {
        ghost var s1 := prot.input;
        var begin, k := prot.ReadFieldBegin();
        if begin.Failure? {
          return Failure(begin.error);
        }
        CountParts(s, s1, prot.input);
        xfer := Count(xfer + k);
        var (ty, id) := begin.value;
        if ty == T_STOP {
          return Success(xfer);
        }
        ghost var s2 := prot.input;
        var done;
        if 1 <= id <= |schema| && Code(schema[id - 1]) == ty {
          done, k := ReadField(prot, id - 1);
        } else {
          done, k := prot.SkipValue(ty);
        }
        if done.Failure? {
          return Failure(done.error);
        }
        CountParts(s, s2, prot.input);
        xfer := Count(xfer + k);
      }
    }

    /** Writes a map: the element types, the size, and the entries in key order up to a key that is too long. */
    static method WriteDict(prot: Protocol, m: Dict) returns (r: Result<()>, xfer: nat)
      requires TypedDict(m)
      modifies prot`output
      ensures r.Success? <==> DictFits(m)
      ensures r.Failure? ==> r.error == SIZE_LIMIT
      ensures prot.output == old(prot.output) + MapSent(m)
      ensures r.Success? ==> xfer == Count(|prot.output| - |old(prot.output)|)
    {
      hide Count, WriteSize, EntriesSent, WriteString, MapSent, InOrder, EntryFits, IsLeast, InRange, BE;
      hide MapSoFar, DictFits, TypedDict, Short, Unsigned32;
      ghost var o := prot.output;
      xfer := prot.WriteMapBegin(T_STRING, T_I32, |m|);
      MapBegun(m, o, prot.output);
      var todo := m.Keys;
      while todo != {}
        invariant todo <= m.Keys && |o| <= |prot.output| && xfer == Count(|prot.output| - |o|)
        invariant MapSoFar(m, todo, o, prot.output)
        invariant forall k :: k in m.Keys - todo ==> Short(k)
        decreases |todo|
      {
        LeastExists(todo);
        var k :| k in todo && IsLeast(k, todo);
        MapNext(m, todo, k, o, prot.output);
        ghost var o1 := prot.output;
        var c;
        r, c := prot.WriteStr(k);
        if r.Failure? {
          return r, 0;
        }
        CountGrown(o, o1, prot.output);
        xfer := Count(xfer + c);
        ghost var o2 := prot.output;
        c := prot.WriteI(4, Unsigned32(m, k));
        assert prot.output == o1 + (WriteString(k) + BE(4, Unsigned32(m, k)));
        CountGrown(o, o2, prot.output);
        xfer := Count(xfer + c);
        todo := todo - {k};
      }
      MapDone(m, o, prot.output);
      r := Success(());
    }

    /** Writes the value of field pos. */
    method WriteField(prot: Protocol, pos: nat) returns (r: Result<()>, xfer: nat)
      requires Valid() && pos < |schema| && pos < |fields|
      modifies prot`output
      ensures TypedValue(schema[pos], fields[pos].value)
      ensures r.Success? <==> Fits(schema[pos], fields[pos].value)
      ensures r.Failure? ==> r.error == SIZE_LIMIT
      ensures prot.output == old(prot.output) + ValueSent(schema[pos], fields[pos].value)
      ensures r.Success? ==> xfer == Count(|prot.output| - |old(prot.output)|)
    {
      hide Count, WriteString, MapSent, BE, Short, DictFits, TypedDict;
      var v := fields[pos].value;
      assert TypedValue(schema[pos], v);
      r := Success(());
      match schema[pos] {
        case KBool => xfer := prot.WriteByte(if v.b then 1 else 0);
        case KI32 => xfer := prot.WriteI(4, Unsigned(4, v.i));
        case KI64 => xfer := prot.WriteI(8, Unsigned(8, v.i));
        case KString => r, xfer := prot.WriteStr(v.s);
        case KMap => r, xfer := WriteDict(prot, v.m);
      }
    }

    /**
     write(): all fields in order, then the stop byte. It fails when the depth counter is at its limit, with
     nothing sent, and at the first string or key that is too long; the counter then stays one higher.
     */
    method Write(prot: Protocol) returns (r: Result<nat>)
      requires Valid() && prot.depth < 0x1_0000_0000
      modifies prot`output, prot`depth
      ensures r.Success? <==> Accepted(old(prot.depth), Object(schema, fields))
      ensures var deep := 64 < (old(prot.depth) + 1) % 0x1_0000_0000;
              && prot.output == old(prot.output) + (if deep then [] else FieldsSent(schema, fields, 0))
              && (r.Failure? ==> r.error == if deep then DEPTH_LIMIT else SIZE_LIMIT)
      ensures r.Success? ==>
                && prot.output == old(prot.output) + WriteStruct(schema, fields)
                && r.value == Count(|WriteStruct(schema, fields)|)
      ensures prot.depth == if r.Success? then old(prot.depth) else Deeper(old(prot.depth))
    {
      hide Count, ValueSent, Fits, FieldsSent, WriteStruct, InRange, WriteInt, Typed;
      SameSize(schema, fields);
      ghost var o := prot.output;
      CountNothing(o);
      var begun := prot.IncrementRecursionDepth();
      if begun.Failure? {
        return Failure(begun.error);
      }
      var xfer := 0;
      var i := 0;
      while i < |schema|
        invariant i <= |schema| && |o| <= |prot.output| && xfer == Count(|prot.output| - |o|)
        invariant prot.depth == Deeper(old(prot.depth))
        invariant prot.output + FieldsSent(schema, fields, i) == o + FieldsSent(schema, fields, 0)
        invariant forall j :: 0 <= j < i ==> Fits(schema[j], fields[j].value)
      {
        ghost var o1 := prot.output;
        var k := prot.WriteFieldBegin(Code(schema[i]), i + 1);
        CountGrown(o, o1, prot.output);
        xfer := Count(xfer + k);
        ghost var o2 := prot.output;
        var done;
        done, k := WriteField(prot, i);
        FieldSent(schema, fields, i, o1, o2, prot.output);
        if done.Failure? {
          return Failure(done.error);
        }
        CountGrown(o, o2, prot.output);
        xfer := Count(xfer + k);
        i := i + 1;
      }
      ghost var o1 := prot.output;
      var k := prot.WriteByte(T_STOP);
      CountGrown(o, o1, prot.output);
      xfer := Count(xfer + k);
      StructSent(schema, fields, o, o1, prot.output);
      prot.DecrementRecursionDepth();
      r := Success(xfer);
    }
  }

  /** One field has been sent, as far as it goes. */
  lemma FieldSent(schema: Schema, fields: seq<Slot>, i: nat, o1: seq<Byte>, o2: seq<Byte>, o3: seq<Byte>)
    requires Typed(schema, fields) && i < |schema| && InRange(2, i + 1) &&
             o2 == o1 + ([Code(schema[i])] + WriteInt(2, i + 1))
    requires TypedValue(schema[i], fields[i].value) && o3 == o2 + ValueSent(schema[i], fields[i].value)
    ensures o1 + FieldsSent(schema, fields, i) ==
            if Fits(schema[i], fields[i].value) then o3 + FieldsSent(schema, fields, i + 1) else o3
  {
    hide WriteInt, ValueSent, Fits, Code, TypedValue, InRange;
  }

  /** Behind the last field comes the stop byte. */
  lemma StructSent(schema: Schema, fields: seq<Slot>, o: seq<Byte>, o1: seq<Byte>, o2: seq<Byte>)
    requires Typed(schema, fields) && (forall j :: 0 <= j < |schema| ==> Fits(schema[j], fields[j].value))
    requires o1 + FieldsSent(schema, fields, |schema|) == o + FieldsSent(schema, fields, 0) && o2 == o1 + [T_STOP]
    ensures o2 == o + FieldsSent(schema, fields, 0)
    ensures Writable(schema, fields) && FieldsSent(schema, fields, 0) == WriteStruct(schema, fields)
  {
    hide Fits, ValueSent;
    assert Writable(schema, fields);
    SentWhole(schema, fields, 0);
  }

  lemma CountGrown(before: seq<Byte>, middle: seq<Byte>, after: seq<Byte>)
    ensures Count(Count(|middle| - |before|) + Count(|after| - |middle|)) == Count(|after| - |before|)
  {
    CountAdds(|middle| - |before|, |after| - |middle|);
  }

  /** What has been sent of the map, with the entries still to come, is all that is sent. */
  ghost predicate MapSoFar(m: Dict, todo: set<seq<Byte>>, o: seq<Byte>, now: seq<Byte>)
    requires TypedDict(m) && todo <= m.Keys
  {
    now + EntriesSent(m, InOrder(todo)) == o + MapSent(m)
  }

  lemma MapBegun(m: Dict, o: seq<Byte>, now: seq<Byte>)
    requires TypedDict(m) && now == o + ([T_STRING, T_I32] + WriteSize(|m|))
    ensures MapSoFar(m, m.Keys, o, now)
  {
    hide WriteSize, EntriesSent, InOrder, TypedDict;
  }

  lemma InOrderNext(todo: set<seq<Byte>>, k: seq<Byte>)
    requires IsLeast(k, todo)
    ensures InOrder(todo) == [k] + InOrder(todo - {k})
  {
    var j := InOrder(todo)[0];
    assert IsLeast(j, todo);
    LeastUnique(j, k, todo);
  }

  lemma NextSent(m: Dict, k: seq<Byte>, keys: seq<seq<Byte>>)
    requires TypedDict(m) && k in m && forall j :: j in keys ==> j in m
    ensures forall j :: j in [k] + keys ==> j in m
    ensures Short(k) ==>
              EntriesSent(m, [k] + keys) == WriteString(k) + BE(4, Unsigned32(m, k)) + EntriesSent(m, keys)
    ensures !Short(k) ==> !DictFits(m) && EntriesSent(m, [k] + keys) == []
  {
    hide WriteString, BE, InRange;
    assert ([k] + keys)[1..] == keys;
    if Short(k) {
      assert EntryFits(m, k);
    } else {
      assert !EntryFits(m, k);
    }
  }

  lemma MapNext(m: Dict, todo: set<seq<Byte>>, k: seq<Byte>, o: seq<Byte>, now: seq<Byte>)
    requires TypedDict(m) && todo <= m.Keys && IsLeast(k, todo) && k in todo && MapSoFar(m, todo, o, now)
    ensures Short(k) ==> MapSoFar(m, todo - {k}, o, now + (WriteString(k) + BE(4, Unsigned32(m, k))))
    ensures !Short(k) ==> !DictFits(m) && now == o + MapSent(m)
  {
    hide MapSent, InRange, IsLeast, InOrder, WriteString, BE, EntriesSent, TypedDict, DictFits, Short, Unsigned32;
    InOrderNext(todo, k);
    var keys := InOrder(todo - {k});
    NextSent(m, k, keys);
    if Short(k) {
      var e, es := WriteString(k) + BE(4, Unsigned32(m, k)), EntriesSent(m, keys);
      assert now + (e + es) == now + e + es;
    } else {
      assert now + [] == now;
    }
  }

  lemma MapDone(m: Dict, o: seq<Byte>, now: seq<Byte>)
    requires TypedDict(m) && (forall k :: k in m.Keys - {} ==> Short(k)) && MapSoFar(m, {}, o, now)
    ensures DictFits(m) && now == o + MapSent(m)
  {
    hide MapSent, InRange;
    forall k | k in m
      ensures EntryFits(m, k)
    {
      assert k in m.Keys - {};
    }
    assert InOrder({}) == [];
    assert now + [] == now;
  }

  lemma SameSize(schema: Schema, fields: seq<Slot>)
    requires Typed(schema, fields)
    ensures |fields| == |schema| < 0x7FFF
  {
  }
}
