/** Bytes, a flat byte memory, and little-endian words stored in it. */
module Bytes {

  type Byte = b: int | 0 <= b < 0x100

  /** The whole address space; every address holds some byte. */
  type Mem = int -> Byte

  datatype Option<+T> = None | Some(value: T)

  function Read(m: Mem, a: int, n: nat): (r: seq<Byte>)
    ensures |r| == n
    ensures forall i :: 0 <= i < n ==> r[i] == m(a + i)
  {
    seq(n, i => m(a + i))
  }

  function Write(m: Mem, a: int, bs: seq<Byte>): (r: Mem)
    ensures forall x :: a <= x < a + |bs| ==> r(x) == bs[x - a]
    ensures forall x :: !(a <= x < a + |bs|) ==> r(x) == m(x)
  {
    (x: int) => if a <= x < a + |bs| then bs[x - a] else m(x)
  }

  /** m and m' hold the same n bytes from a on. */
  ghost predicate Agree(m: Mem, m': Mem, a: int, n: int) {
    forall x :: a <= x < a + n ==> m(x) == m'(x)
  }

  lemma ReadAgree(m: Mem, m': Mem, a: int, n: nat)
    requires Agree(m, m', a, n)
    ensures Read(m, a, n) == Read(m', a, n)
  {
  }

  lemma ReadPart(m: Mem, a: int, n: nat, lo: nat, hi: nat)
    requires lo <= hi <= n
    ensures Read(m, a, n)[lo..hi] == Read(m, a + lo, hi - lo)
  {
  }

  lemma ReadWritten(m: Mem, a: int, bs: seq<Byte>)
    ensures Read(Write(m, a, bs), a, |bs|) == bs
  {
  }

  function Pow256(n: nat): (p: nat)
    ensures p > 0
  {
    if n == 0 then 1 else 256 * Pow256(n - 1)
  }

  /** The low n bytes of v, least significant first. */
  function LE(n: nat, v: nat): (r: seq<Byte>)
    ensures |r| == n
  {
    if n == 0 then [] else [v % 256] + LE(n - 1, v / 256)
  }

  function FromLE(bs: seq<Byte>): nat {
    if bs == [] then 0 else bs[0] + 256 * FromLE(bs[1..])
  }

  lemma {:induction false} FromLEBound(bs: seq<Byte>)
    ensures FromLE(bs) < Pow256(|bs|)
  {
    if bs != [] {
      FromLEBound(bs[1..]);
    }
  }

  lemma {:induction false} LERoundTrip(n: nat, v: nat)
    requires v < Pow256(n)
    ensures FromLE(LE(n, v)) == v
  {
    if n > 0 {
      assert LE(n, v)[1..] == LE(n - 1, v / 256);
      LERoundTrip(n - 1, v / 256);
    }
  }

  lemma Pow256Values()
    ensures Pow256(4) == 0x1_0000_0000
    ensures Pow256(8) == 0x1_0000_0000_0000_0000
  {
    assert Pow256(2) == 0x10000;
    assert Pow256(4) == 0x1_0000_0000;
    assert Pow256(6) == 0x1_0000_0000_0000;
  }

  function Load(m: Mem, a: int, n: nat): nat {
    FromLE(Read(m, a, n))
  }

  function Store(m: Mem, a: int, n: nat, v: nat): Mem {
    Write(m, a, LE(n, v))
  }

  lemma LoadStored(m: Mem, a: int, n: nat, v: nat)
    requires v < Pow256(n)
    ensures Load(Store(m, a, n, v), a, n) == v
  {
    ReadWritten(m, a, LE(n, v));
    LERoundTrip(n, v);
  }

  /** The unsigned 32-bit value of x, as the C cast (UINT32) yields it. */
  function Trunc32(x: int): nat {
    x % 0x1_0000_0000
  }

  /** The signed value of a 32-bit field, as the C cast (INT32) yields it. */
  function Sext32(u: nat): int {
    if u < 0x8000_0000 then u else u - 0x1_0000_0000
  }

  function Sext8(u: Byte): int {
    if u < 0x80 then u else u - 0x100
  }

  predicate FitsInt32(x: int) {
    -0x8000_0000 <= x < 0x8000_0000
  }

  /** Truncating and sign-extending gives back exactly the numbers a signed 32-bit field can hold. */
  lemma SextTrunc(x: int)
    ensures FitsInt32(x) <==> Sext32(Trunc32(x)) == x
  {
  }
}
