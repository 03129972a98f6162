/**
 The struct readers and writers of gen-cpp/userdefined_types.cpp over Thrift's binary protocol, as
 functions on byte sequences. The generated readers differ only in the fields they know, so a schema
 stands for each struct. Sizes are not limited (string_limit_ and container_limit_ are 0).
 */
module ThriftSpec {
  import opened Bytes

  datatype Error = END_OF_FILE | NEGATIVE_SIZE | SIZE_LIMIT | DEPTH_LIMIT

  /** What a read yields: a value and the bytes behind it, or the exception. */
  datatype Parsed<+T> = Ok(value: T, rest: seq<Byte>) | Err(error: Error)

  // ---------- Wire types ----------

  const T_STOP: Byte := 0
  const T_BOOL: Byte := 2
  const T_BYTE: Byte := 3
  const T_DOUBLE: Byte := 4
  const T_I16: Byte := 6
  const T_I32: Byte := 8
  const T_I64: Byte := 10
  const T_STRING: Byte := 11
  const T_STRUCT: Byte := 12
  const T_MAP: Byte := 13
  const T_SET: Byte := 14
  const T_LIST: Byte := 15

  const MAX_SIZE: nat := 0x7FFF_FFFF

  // ---------- Integers ----------

  /** The low n bytes of v, most significant first. */
  function BE(n: nat, v: nat): (r: seq<Byte>)
    ensures |r| == n
  {
    if n == 0 then [] else BE(n - 1, v / 256) + [v % 256]
  }

  function FromBE(bs: seq<Byte>): nat {
    if bs == [] then 0 else 256 * FromBE(bs[..|bs| - 1]) + bs[|bs| - 1]
  }

  lemma {:induction false} BERoundTrip(n: nat, v: nat)
    requires v < Pow256(n)
    ensures FromBE(BE(n, v)) == v
  {
    if n > 0 {
      assert BE(n, v)[..n - 1] == BE(n - 1, v / 256);
      BERoundTrip(n - 1, v / 256);
    }
  }

  predicate InRange(n: nat, x: int) {
    0 <= 2 * x + Pow256(n) && 2 * x < Pow256(n)
  }

  /** Two's complement. */
  function Unsigned(n: nat, x: int): int {
    if x < 0 then x + Pow256(n) else x
  }

  function Signed(n: nat, u: nat): int {
    if 2 * u < Pow256(n) then u else u - Pow256(n)
  }

  lemma SignRoundTrip(n: nat, x: int)
    requires InRange(n, x)
    ensures 0 <= Unsigned(n, x) < Pow256(n) && Signed(n, Unsigned(n, x)) == x
  {
  }

  function ReadInt(n: nat, s: seq<Byte>): Parsed<int> {
    if |s| < n then Err(END_OF_FILE) else Ok(Signed(n, FromBE(s[..n])), s[n..])
  }

  function WriteInt(n: nat, x: int): (r: seq<Byte>)
    requires InRange(n, x)
    ensures |r| == n
  {
    BE(n, Unsigned(n, x))
  }

  lemma IntRoundTrip(n: nat, x: int, rest: seq<Byte>)
    requires InRange(n, x)
    ensures ReadInt(n, WriteInt(n, x) + rest) == Ok(x, rest)
  {
    SignRoundTrip(n, x);
    BERoundTrip(n, Unsigned(n, x));
    assert (WriteInt(n, x) + rest)[..n] == WriteInt(n, x);
    assert (WriteInt(n, x) + rest)[n..] == rest;
  }

  // ---------- Strings ----------

  /** A length and that many bytes. */
  function ReadString(s: seq<Byte>): Parsed<seq<Byte>> {
    var size := ReadInt(4, s);
    if size.Err? then Err(size.error)
    else if size.value < 0 then Err(NEGATIVE_SIZE)
    else if |size.rest| < size.value then Err(END_OF_FILE)
    else Ok(size.rest[..size.value], size.rest[size.value..])
  }

  lemma Pow256Four()
    ensures Pow256(4) == 0x1_0000_0000 && Pow256(2) == 0x1_0000
  {
    Pow256Values();
  }

  /** A string that writeString does not refuse. */
  predicate Short(str: seq<Byte>) {
    |str| <= MAX_SIZE
  }

  function WriteString(str: seq<Byte>): seq<Byte>
    requires Short(str)
  {
    Pow256Four();
    WriteInt(4, |str|) + str
  }

  lemma StringRoundTrip(str: seq<Byte>, rest: seq<Byte>)
    requires Short(str)
    ensures ReadString(WriteString(str) + rest) == Ok(str, rest)
  {
    Pow256Four();
    IntRoundTrip(4, |str|, str + rest);
    assert WriteString(str) + rest == WriteInt(4, |str|) + (str + rest);
  }

  // ---------- Maps from strings to 32-bit integers ----------

  type Dict = map<seq<Byte>, int>

  /** n entries, each overwriting an earlier one with the same key. */
  function ReadEntries(n: nat, m: Dict, s: seq<Byte>): Parsed<Dict>
    decreases n
  {
    if n == 0 then Ok(m, s)
    else
      var key := ReadString(s);
      if key.Err? then Err(key.error)
      else
        var val := ReadInt(4, key.rest);
        if val.Err? then Err(val.error) else ReadEntries(n - 1, m[key.value := val.value], val.rest)
  }

  /** The element types are read and not looked at. */
  function ReadMap(s: seq<Byte>): Parsed<Dict> {
    if |s| < 2 then Err(END_OF_FILE)
    else
      var size := ReadInt(4, s[2..]);
      if size.Err? then Err(size.error)
      else if size.value < 0 then Err(NEGATIVE_SIZE)
      else ReadEntries(size.value, map[], size.rest)
  }

  predicate EntryFits(m: Dict, k: seq<Byte>) {
    k in m && Short(k) && (Pow256Four(); InRange(4, m[k]))
  }

  function WriteEntry(m: Dict, k: seq<Byte>): seq<Byte>
    requires EntryFits(m, k)
  {
    WriteString(k) + WriteInt(4, m[k])
  }

  /** The entries for the given keys, in that order. */
  function WriteEntries(m: Dict, keys: seq<seq<Byte>>): seq<Byte>
    requires forall k :: k in keys ==> EntryFits(m, k)
  {
    if keys == [] then [] else WriteEntry(m, keys[0]) + WriteEntries(m, keys[1..])
  }

  /** The size as the cast to a 32-bit integer leaves it. */
  function WriteSize(n: nat): (r: seq<Byte>)
    ensures |r| == 4
  {
    BE(4, n % 0x1_0000_0000)
  }

  lemma EntryRoundTrip(n: nat, acc: Dict, m: Dict, k: seq<Byte>, rest: seq<Byte>)
    requires EntryFits(m, k) && n > 0
    ensures ReadEntries(n, acc, WriteEntry(m, k) + rest) == ReadEntries(n - 1, acc[k := m[k]], rest)
  {
    StringRoundTrip(k, WriteInt(4, m[k]) + rest);
    IntRoundTrip(4, m[k], rest);
    assert WriteEntry(m, k) + rest == WriteString(k) + (WriteInt(4, m[k]) + rest);
  }

  /** The entries of m under the given keys. */
  function Restrict(m: Dict, keys: seq<seq<Byte>>): Dict {
    map k | k in keys && k in m :: m[k]
  }

  lemma RestrictNext(acc: Dict, m: Dict, keys: seq<seq<Byte>>)
    requires keys != [] && keys[0] in m
    ensures acc[keys[0] := m[keys[0]]] + Restrict(m, keys[1..]) == acc + Restrict(m, keys)
  {
    assert forall k :: k in keys <==> k == keys[0] || k in keys[1..];
  }

  lemma {:induction false} EntriesRoundTrip(acc: Dict, m: Dict, keys: seq<seq<Byte>>, rest: seq<Byte>)
    requires forall k :: k in keys ==> EntryFits(m, k)
    ensures ReadEntries(|keys|, acc, WriteEntries(m, keys) + rest) == Ok(acc + Restrict(m, keys), rest)
    decreases keys
  {
    hide WriteEntry;
    if keys == [] {
      assert WriteEntries(m, keys) + rest == rest;
      assert acc + Restrict(m, keys) == acc;
    } else {
      var k := keys[0];
      assert WriteEntries(m, keys) + rest == WriteEntry(m, k) + (WriteEntries(m, keys[1..]) + rest);
      EntryRoundTrip(|keys|, acc, m, k, WriteEntries(m, keys[1..]) + rest);
      RestrictNext(acc, m, keys);
      EntriesRoundTrip(acc[k := m[k]], m, keys[1..], rest);
    }
  }

  // ---------- The order of std::map ----------

  /** std::string's operator<: the first differing byte decides, a prefix comes first. */
  predicate Less(a: seq<Byte>, b: seq<Byte>) {
    b != [] && (a == [] || a[0] < b[0] || (a[0] == b[0] && Less(a[1..], b[1..])))
  }

  lemma {:induction false} LessTotal(a: seq<Byte>, b: seq<Byte>)
    ensures Less(a, b) || a == b || Less(b, a)
    ensures !(Less(a, b) && Less(b, a)) && !Less(a, a)
  {
    if a != [] && b != [] {
      LessTotal(a[1..], b[1..]);
      LessTotal(a[1..], a[1..]);
      assert a == [a[0]] + a[1..] && b == [b[0]] + b[1..];
    } else if a != [] {
      LessTotal(a[1..], a[1..]);
    }
  }

  lemma {:induction false} LessTransitive(a: seq<Byte>, b: seq<Byte>, c: seq<Byte>)
    requires Less(a, b) && Less(b, c)
    ensures Less(a, c)
  {
    if a != [] && a[0] == b[0] == c[0] {
      LessTransitive(a[1..], b[1..], c[1..]);
    }
  }

  predicate IsLeast(k: seq<Byte>, keys: set<seq<Byte>>) {
    k in keys && forall j :: j in keys && j != k ==> Less(k, j)
  }

  lemma {:induction false} LeastExists(keys: set<seq<Byte>>)
    requires keys != {}
    ensures exists k :: k in keys && IsLeast(k, keys)
    decreases |keys|
  {
    var j :| j in keys;
    if keys == {j} {
      assert IsLeast(j, keys);
    } else {
      LeastExists(keys - {j});
      var k :| k in keys - {j} && IsLeast(k, keys - {j});
      LessTotal(j, k);
      if Less(j, k) {
        forall i | i in keys && i != j
          ensures Less(j, i)
        {
          if i != k {
            assert i in keys - {j};
            LessTransitive(j, k, i);
          }
        }
        assert IsLeast(j, keys);
      } else {
        assert forall i :: i in keys && i != j ==> i in keys - {j};
        assert IsLeast(k, keys);
      }
    }
  }

  lemma LeastUnique(j: seq<Byte>, k: seq<Byte>, keys: set<seq<Byte>>)
    requires IsLeast(j, keys) && IsLeast(k, keys)
    ensures j == k
  {
    LessTotal(j, k);
  }

  /** The keys in the order in which the map is iterated. */
  ghost function InOrder(keys: set<seq<Byte>>): (r: seq<seq<Byte>>)
    ensures forall k :: k in r <==> k in keys
    ensures |r| == |keys|
    decreases |keys|
  {
    if keys == {} then []
    else
      LeastExists(keys);
      var k :| IsLeast(k, keys);
      [k] + InOrder(keys - {k})
  }

  ghost predicate DictFits(m: Dict) {
    forall k :: k in m ==> EntryFits(m, k)
  }

  ghost function WriteMap(m: Dict): seq<Byte>
    requires DictFits(m)
  {
    [T_STRING, T_I32] + WriteSize(|m|) + WriteEntries(m, InOrder(m.Keys))
  }

  lemma SizeRead(n: nat, rest: seq<Byte>)
    ensures n <= MAX_SIZE ==> ReadInt(4, WriteSize(n) + rest) == Ok(n, rest)
    ensures var size := ReadInt(4, WriteSize(n) + rest); size.Ok? && size.rest == rest && size.value <= MAX_SIZE
  {
    Pow256Four();
    BERoundTrip(4, n % 0x1_0000_0000);
    assert (WriteSize(n) + rest)[..4] == WriteSize(n);
    assert (WriteSize(n) + rest)[4..] == rest;
  }

  /** A map small enough for its size to be written comes back whole. */
  lemma MapRoundTrip(m: Dict, rest: seq<Byte>)
    requires DictFits(m) && |m| <= MAX_SIZE
    ensures ReadMap(WriteMap(m) + rest) == Ok(m, rest)
  {
    hide ReadInt, WriteSize, ReadEntries, WriteEntries, EntryFits, InOrder, Restrict;
    var keys := InOrder(m.Keys);
    var body := WriteEntries(m, keys) + rest;
    MapParts(m, rest);
    SizeRead(|m|, body);
    EntriesRoundTrip(map[], m, keys, rest);
    RestrictAll(m, keys);
  }

  lemma RestrictAll(m: Dict, keys: seq<seq<Byte>>)
    requires forall k :: k in keys <==> k in m
    ensures map[] + Restrict(m, keys) == m
  {
  }

  /** What comes behind the element types of a written map. */
  lemma MapParts(m: Dict, rest: seq<Byte>)
    requires DictFits(m)
    ensures |WriteMap(m) + rest| >= 2
    ensures (WriteMap(m) + rest)[2..] == WriteSize(|m|) + (WriteEntries(m, InOrder(m.Keys)) + rest)
  {
    hide WriteSize, WriteEntries, EntryFits, InOrder;
  }

  /** No more entries come out of a map on the wire than its 32-bit size says. */
  lemma {:induction false} EntriesBounded(n: nat, m: Dict, s: seq<Byte>)
    ensures var r := ReadEntries(n, m, s); r.Ok? ==> |r.value| <= |m| + n
    decreases n
  {
    hide ReadString, ReadInt;
    if n > 0 {
      var key := ReadString(s);
      if key.Ok? {
        var val := ReadInt(4, key.rest);
        if val.Ok? {
          var m' := m[key.value := val.value];
          assert m'.Keys == m.Keys + {key.value};
          assert |m'| <= |m| + 1;
          EntriesBounded(n - 1, m', val.rest);
        }
      }
    }
  }

  lemma MapBounded(s: seq<Byte>)
    ensures var r := ReadMap(s); r.Ok? ==> |r.value| <= MAX_SIZE
  {
    hide ReadEntries;
    if |s| >= 2 {
      var size := ReadInt(4, s[2..]);
      if size.Ok? && size.value >= 0 {
        IntBounded(s[2..]);
        EntriesBounded(size.value, map[], size.rest);
      }
    }
  }

  lemma {:induction false} FromBEBound(bs: seq<Byte>)
    ensures FromBE(bs) < Pow256(|bs|)
  {
    if bs != [] {
      FromBEBound(bs[..|bs| - 1]);
    }
  }

  lemma IntBounded(s: seq<Byte>)
    ensures var r := ReadInt(4, s); r.Ok? ==> r.value <= MAX_SIZE
  {
    Pow256Four();
    if |s| >= 4 {
      FromBEBound(s[..4]);
    }
  }
}
