/**
 buffer.c: blocks and slots as they lie in memory. A block is a 4 KB page; its first slot-sized
 cell holds the header (next block, free list, used count), every other cell is a slot, and a free
 slot holds the pointer to the next free slot in its first bytes.
 */
module SlotHeap {
  import opened Bytes
  import opened Cpu
  import opened TrampolineSpec

  const BLOCK: nat := 0x1000

  /** Slots of a block: all cells but the header's. */
  function SlotCount(arch: Arch): nat {
    if arch == X64 then 63 else 127
  }

  predicate OnCell(arch: Arch, a: int) {
    if arch == X64 then a % 64 == 0 else a % 32 == 0
  }

  /** s is the address of a slot of the block at b. */
  predicate IsSlot(arch: Arch, b: nat, s: int) {
    b + SlotSize(arch) <= s && s + SlotSize(arch) <= b + BLOCK && OnCell(arch, s)
  }

  /** A block has 63 slots of 64 bytes on x64, 127 of 32 bytes on x86, behind a header of the same size. */
  lemma SlotsOfBlock(arch: Arch, b: nat, s: nat)
    requires b % 0x1000 == 0
    ensures IsSlot(arch, b, s) <==>
            if arch == X64 then b < s < b + 0x1000 && (s - b) % 64 == 0
            else b < s < b + 0x1000 && (s - b) % 32 == 0
    ensures IsSlot(arch, b, s) ==> s + (if arch == X64 then 64 else 32) <= b + 0x1000
  {
    CellShift(b / 0x1000, s - b);
    CellRange(s - b);
  }

  lemma CellShift(q: nat, d: int)
    ensures (0x1000 * q + d) % 64 == d % 64 && (0x1000 * q + d) % 32 == d % 32
  {
    Shift64(64 * q, d);
    Shift32(128 * q, d);
  }

  lemma Shift64(q: nat, d: int)
    ensures (64 * q + d) % 64 == d % 64
  {
  }

  lemma Shift32(q: nat, d: int)
    ensures (32 * q + d) % 32 == d % 32
  {
  }

  lemma CellRange(d: int)
    ensures 0 < d < 0x1000 && d % 64 == 0 ==> 64 <= d <= 0x1000 - 64
    ensures 0 < d < 0x1000 && d % 32 == 0 ==> 32 <= d <= 0x1000 - 32
  {
  }

  /** A block and its free list, in list order. */
  datatype Block = Block(addr: nat, free: seq<nat>)

  predicate Distinct(s: seq<nat>) {
    forall i, j :: 0 <= i < j < |s| ==> s[i] != s[j]
  }

  ghost predicate BlockOk(arch: Arch, b: Block) {
    && 0 < b.addr && b.addr % BLOCK == 0 && b.addr + BLOCK <= Modulus(arch)
    && Distinct(b.free)
    && forall j :: 0 <= j < |b.free| ==> IsSlot(arch, b.addr, b.free[j])
  }

  function Head(s: seq<nat>): nat {
    if s == [] then 0 else s[0]
  }

  function HeadBlock(bs: seq<Block>): nat {
    if bs == [] then 0 else bs[0].addr
  }

  /** The words of the header. */
  function NextPtr(arch: Arch, m: Mem, b: nat): nat { Load(m, b, PtrSize(arch)) }
  function FreePtr(arch: Arch, m: Mem, b: nat): nat { Load(m, b + PtrSize(arch), PtrSize(arch)) }
  function UsedCount(arch: Arch, m: Mem, b: nat): nat { Load(m, b + 2 * PtrSize(arch), 4) }

  /** The free list in memory is free. */
  ghost predicate FreeChain(arch: Arch, m: Mem, free: seq<nat>) {
    forall j :: 0 <= j < |free| ==> Load(m, free[j], PtrSize(arch)) == Head(free[j + 1..])
  }

  /** m holds the header and the free list of b, whose successor is next. */
  ghost predicate BlockIn(arch: Arch, m: Mem, b: Block, next: nat) {
    && NextPtr(arch, m, b.addr) == next
    && FreePtr(arch, m, b.addr) == Head(b.free)
    && UsedCount(arch, m, b.addr) + |b.free| == SlotCount(arch)
    && FreeChain(arch, m, b.free)
  }

  ghost predicate DistinctBlocks(bs: seq<Block>) {
    forall i, j :: 0 <= i < j < |bs| ==> bs[i].addr != bs[j].addr
  }

  /** The block list starting at head, with all free lists, is in memory as bs says. */
  ghost predicate HeapIn(arch: Arch, m: Mem, head: nat, bs: seq<Block>) {
    && head == HeadBlock(bs)
    && DistinctBlocks(bs)
    && (forall i :: 0 <= i < |bs| ==> BlockOk(arch, bs[i]) && BlockIn(arch, m, bs[i], HeadBlock(bs[i + 1..])))
  }

  /** A slot that has been handed out. */
  ghost predicate IsLive(arch: Arch, bs: seq<Block>, s: int) {
    exists i :: 0 <= i < |bs| && IsSlot(arch, bs[i].addr, s) && s !in bs[i].free
  }

  ghost predicate InPage(b: nat, x: int) {
    b <= x < b + BLOCK
  }

  ghost predicate InBlocks(bs: seq<Block>, x: int) {
    exists i :: 0 <= i < |bs| && InPage(bs[i].addr, x)
  }

  // ---------- Frames ----------

  /** m and m' agree on everything of b that the allocator uses. */
  ghost predicate AgreeMeta(arch: Arch, m: Mem, m': Mem, b: Block) {
    && Agree(m, m', b.addr, SlotSize(arch))
    && forall j :: 0 <= j < |b.free| ==> Agree(m, m', b.free[j], PtrSize(arch))
  }

  lemma LoadAgree(m: Mem, m': Mem, a: int, n: nat)
    requires Agree(m, m', a, n)
    ensures Load(m, a, n) == Load(m', a, n)
  {
    ReadAgree(m, m', a, n);
  }

  lemma BlockFrame(arch: Arch, m: Mem, m': Mem, b: Block, next: nat)
    requires BlockIn(arch, m, b, next) && AgreeMeta(arch, m, m', b)
    ensures BlockIn(arch, m', b, next)
  {
    hide Load;
    var w := PtrSize(arch);
    LoadAgree(m, m', b.addr, w);
    LoadAgree(m, m', b.addr + w, w);
    LoadAgree(m, m', b.addr + 2 * w, 4);
    forall j | 0 <= j < |b.free|
      ensures Load(m', b.free[j], w) == Load(m, b.free[j], w)
    {
      LoadAgree(m, m', b.free[j], w);
    }
  }

  /** Cells at different addresses do not overlap. */
  lemma CellsApart(arch: Arch, a: int, b: int)
    requires OnCell(arch, a) && OnCell(arch, b) && a < b
    ensures a + SlotSize(arch) <= b
  {
    var n := SlotSize(arch);
    assert a == n * (a / n) && b == n * (b / n);
    if arch == X64 {
      assert a / 64 < b / 64;
    } else {
      assert a / 32 < b / 32;
    }
  }

  lemma PagesApart(a: nat, b: nat)
    requires a % BLOCK == 0 && b % BLOCK == 0 && a < b
    ensures a + BLOCK <= b
  {
  }

  /** Writing outside the block's page leaves the block as it is. */
  lemma PageFrame(arch: Arch, m: Mem, m': Mem, b: Block, next: nat)
    requires BlockOk(arch, b) && BlockIn(arch, m, b, next)
    requires forall x :: InPage(b.addr, x) ==> m(x) == m'(x)
    ensures BlockIn(arch, m', b, next)
  {
    hide BlockIn, OnCell;
    BlockFrame(arch, m, m', b, next);
  }

  /** Writing live slots, or outside all blocks, leaves the heap as it is. */
  lemma HeapFrame(arch: Arch, m: Mem, m': Mem, head: nat, bs: seq<Block>)
    requires HeapIn(arch, m, head, bs)
    requires forall i :: 0 <= i < |bs| ==> AgreeMeta(arch, m, m', bs[i])
    ensures HeapIn(arch, m', head, bs)
  {
    hide BlockIn, BlockOk, AgreeMeta;
    forall i | 0 <= i < |bs|
      ensures BlockIn(arch, m', bs[i], HeadBlock(bs[i + 1..]))
    {
      BlockFrame(arch, m, m', bs[i], HeadBlock(bs[i + 1..]));
    }
  }

  lemma PageOnCell(arch: Arch, b: nat)
    requires b % BLOCK == 0
    ensures OnCell(arch, b)
  {
    var q := b / BLOCK;
    assert b == 64 * (64 * q) && b == 32 * (128 * q);
  }

  /** A slot-sized cell that is neither the header nor in the free list shares no byte with what the allocator uses. */
  lemma CellOutside(arch: Arch, m: Mem, m': Mem, b: Block, s: nat)
    requires BlockOk(arch, b) && OnCell(arch, s) && s != b.addr && s !in b.free
    requires forall x :: !(s <= x < s + SlotSize(arch)) ==> m(x) == m'(x)
    ensures AgreeMeta(arch, m, m', b)
  {
    hide OnCell;
    PageOnCell(arch, b.addr);
    Disjoint(arch, b.addr, s);
    forall j | 0 <= j < |b.free|
      ensures Agree(m, m', b.free[j], PtrSize(arch))
    {
      Disjoint(arch, b.free[j], s);
    }
  }

  lemma Disjoint(arch: Arch, a: int, b: int)
    requires OnCell(arch, a) && OnCell(arch, b) && a != b
    ensures a + SlotSize(arch) <= b || b + SlotSize(arch) <= a
  {
    if a < b {
      CellsApart(arch, a, b);
    } else {
      CellsApart(arch, b, a);
    }
  }

  /** A slot of block i is no header and no slot of another block. */
  lemma SlotOfOne(arch: Arch, bs: seq<Block>, i: nat, k: nat, s: nat)
    requires i < |bs| && k < |bs| && i != k && DistinctBlocks(bs)
    requires BlockOk(arch, bs[i]) && BlockOk(arch, bs[k]) && IsSlot(arch, bs[i].addr, s)
    ensures !InPage(bs[k].addr, s) && s !in bs[k].free && s != bs[k].addr
  {
    hide OnCell;
    if bs[i].addr < bs[k].addr {
      PagesApart(bs[i].addr, bs[k].addr);
    } else {
      PagesApart(bs[k].addr, bs[i].addr);
    }
  }

  /** Writing a live slot leaves the heap as it is. */
  lemma LiveFrame(arch: Arch, m: Mem, m': Mem, head: nat, bs: seq<Block>, s: nat)
    requires HeapIn(arch, m, head, bs) && IsLive(arch, bs, s)
    requires forall x :: !(s <= x < s + SlotSize(arch)) ==> m(x) == m'(x)
    ensures HeapIn(arch, m', head, bs)
  {
    hide BlockIn, BlockOk, AgreeMeta, OnCell;
    var i :| 0 <= i < |bs| && IsSlot(arch, bs[i].addr, s) && s !in bs[i].free;
    forall k | 0 <= k < |bs|
      ensures AgreeMeta(arch, m, m', bs[k])
    {
      if k != i {
        SlotOfOne(arch, bs, i, k, s);
      }
      CellOutside(arch, m, m', bs[k], s);
    }
    HeapFrame(arch, m, m', head, bs);
  }

  /** Writing outside all pages leaves the heap as it is. */
  lemma OutsideFrame(arch: Arch, m: Mem, m': Mem, head: nat, bs: seq<Block>)
    requires HeapIn(arch, m, head, bs)
    requires forall x :: InBlocks(bs, x) ==> m(x) == m'(x)
    ensures HeapIn(arch, m', head, bs)
  {
    hide BlockIn, BlockOk;
    forall i | 0 <= i < |bs|
      ensures BlockIn(arch, m', bs[i], HeadBlock(bs[i + 1..]))
    {
      assert forall x :: InPage(bs[i].addr, x) ==> InBlocks(bs, x);
      PageFrame(arch, m, m', bs[i], HeadBlock(bs[i + 1..]));
    }
  }

  // ---------- Words ----------

  lemma WordBound(arch: Arch, v: nat)
    ensures v < Modulus(arch) ==> v < Pow256(PtrSize(arch))
    ensures v < 0x1_0000_0000 ==> v < Pow256(4)
  {
    Pow256Values();
  }

  lemma LoadElsewhere(m: Mem, a: int, n: nat, v: nat, b: int, k: nat)
    requires a + n <= b || b + k <= a
    ensures Load(Store(m, a, n, v), b, k) == Load(m, b, k)
  {
    LoadAgree(m, Store(m, a, n, v), b, k);
  }

  lemma StoreElsewhere(m: Mem, a: int, n: nat, v: nat)
    ensures forall x :: !(a <= x < a + n) ==> Store(m, a, n, v)(x) == m(x)
  {
  }

  /** The memory after the header of b got a new free list and used count. */
  function WithHeader(arch: Arch, m: Mem, b: nat, free: nat, used: nat): Mem {
    Store(Store(m, b + PtrSize(arch), PtrSize(arch), free), b + 2 * PtrSize(arch), 4, used)
  }

  lemma HeaderWritten(arch: Arch, m: Mem, b: nat, free: nat, used: nat)
    requires free < Modulus(arch) && used < 0x1_0000_0000
    ensures var m' := WithHeader(arch, m, b, free, used);
            && NextPtr(arch, m', b) == NextPtr(arch, m, b)
            && FreePtr(arch, m', b) == free
            && UsedCount(arch, m', b) == used
            && forall x :: !(b <= x < b + SlotSize(arch)) ==> m'(x) == m(x)
  {
    hide Load, Store;
    var w := PtrSize(arch);
    WordBound(arch, free);
    WordBound(arch, used);
    var m1 := Store(m, b + w, w, free);
    LoadStored(m, b + w, w, free);
    LoadStored(m1, b + 2 * w, 4, used);
    LoadElsewhere(m, b + w, w, free, b, w);
    LoadElsewhere(m1, b + 2 * w, 4, used, b, w);
    LoadElsewhere(m1, b + 2 * w, 4, used, b + w, w);
    StoreElsewhere(m, b + w, w, free);
    StoreElsewhere(m1, b + 2 * w, 4, used);
  }

  /** The free list is untouched by writes to the header or to cells not in the list. */
  lemma ChainFrame(arch: Arch, m: Mem, m': Mem, free: seq<nat>, cell: nat)
    requires FreeChain(arch, m, free) && OnCell(arch, cell) && cell !in free
    requires forall j :: 0 <= j < |free| ==> OnCell(arch, free[j])
    requires forall x :: !(cell <= x < cell + SlotSize(arch)) ==> m'(x) == m(x)
    ensures FreeChain(arch, m', free)
  {
    hide OnCell, Load;
    forall j | 0 <= j < |free|
      ensures Load(m', free[j], PtrSize(arch)) == Load(m, free[j], PtrSize(arch))
    {
      Disjoint(arch, free[j], cell);
      LoadAgree(m, m', free[j], PtrSize(arch));
    }
  }

  // ---------- Taking a slot from, and returning it to, a block ----------

  lemma HeaderNotFree(arch: Arch, b: Block)
    requires BlockOk(arch, b)
    ensures b.addr !in b.free && OnCell(arch, b.addr)
    ensures forall j :: 0 <= j < |b.free| ==> OnCell(arch, b.free[j]) && b.free[j] < Modulus(arch)
  {
    PageOnCell(arch, b.addr);
  }

  /** Removing the first free slot. */
  lemma Popped(arch: Arch, m: Mem, b: Block, next: nat)
    requires BlockOk(arch, b) && BlockIn(arch, m, b, next) && b.free != []
    ensures var m' := WithHeader(arch, m, b.addr, Head(b.free[1..]), UsedCount(arch, m, b.addr) + 1);
            var b' := Block(b.addr, b.free[1..]);
            && BlockOk(arch, b') && BlockIn(arch, m', b', next)
            && forall x :: !(b.addr <= x < b.addr + SlotSize(arch)) ==> m'(x) == m(x)
  {
    hide OnCell, NextPtr, FreePtr, UsedCount, Load;
    HeaderNotFree(arch, b);
    var free, used := Head(b.free[1..]), UsedCount(arch, m, b.addr) + 1;
    var m' := WithHeader(arch, m, b.addr, free, used);
    HeaderWritten(arch, m, b.addr, free, used);
    assert FreeChain(arch, m, b.free[1..]) by {
      forall j | 0 <= j < |b.free[1..]|
        ensures Load(m, b.free[1..][j], PtrSize(arch)) == Head(b.free[1..][j + 1..])
      {
        assert b.free[1..][j] == b.free[j + 1] && b.free[1..][j + 1..] == b.free[j + 2..];
      }
    }
    ChainFrame(arch, m, m', b.free[1..], b.addr);
  }

  /** Putting slot s in front of the free list. */
  lemma Pushed(arch: Arch, m: Mem, b: Block, next: nat, s: nat)
    requires BlockOk(arch, b) && BlockIn(arch, m, b, next)
    requires IsSlot(arch, b.addr, s) && s !in b.free && |b.free| < SlotCount(arch)
    ensures var m1 := Store(m, s, PtrSize(arch), Head(b.free));
            var m' := WithHeader(arch, m1, b.addr, s, UsedCount(arch, m, b.addr) - 1);
            var b' := Block(b.addr, [s] + b.free);
            && BlockOk(arch, b') && BlockIn(arch, m', b', next)
            && forall x :: !(b.addr <= x < b.addr + SlotSize(arch)) && !(s <= x < s + SlotSize(arch)) ==> m'(x) == m(x)
  {
    hide OnCell, Load, Store;
    HeaderNotFree(arch, b);
    var w := PtrSize(arch);
    var m1 := Store(m, s, w, Head(b.free));
    var used := UsedCount(arch, m, b.addr) - 1;
    var m' := WithHeader(arch, m1, b.addr, s, used);
    var free' := [s] + b.free;
    StoreElsewhere(m, s, w, Head(b.free));
    Disjoint(arch, b.addr, s);
    LoadElsewhere(m, s, w, Head(b.free), b.addr, w);
    HeaderWritten(arch, m1, b.addr, s, used);
    ChainFrame(arch, m, m1, b.free, s);
    ChainPush(arch, m, b.free, s);
    ChainFrame(arch, m1, m', free', b.addr);
  }

  lemma ChainPush(arch: Arch, m: Mem, free: seq<nat>, s: nat)
    requires FreeChain(arch, Store(m, s, PtrSize(arch), Head(free)), free) && Head(free) < Modulus(arch)
    ensures FreeChain(arch, Store(m, s, PtrSize(arch), Head(free)), [s] + free)
  {
    hide Load, Store;
    WordBound(arch, Head(free));
    LoadStored(m, s, PtrSize(arch), Head(free));
    var free' := [s] + free;
    forall j | 0 <= j < |free'|
      ensures Load(Store(m, s, PtrSize(arch), Head(free)), free'[j], PtrSize(arch)) == Head(free'[j + 1..])
    {
      if j > 0 {
        assert free'[j] == free[j - 1] && free'[j + 1..] == free[j..];
      } else {
        assert free'[1..] == free;
      }
    }
  }

  // ---------- Counting slots ----------

  function SlotAddr(arch: Arch, b: nat, n: nat): nat {
    if arch == X64 then b + 64 * n else b + 32 * n
  }

  /** The first n slots of a block. */
  function FirstSlots(arch: Arch, b: nat, n: nat): set<nat> {
    if n == 0 then {} else FirstSlots(arch, b, n - 1) + {SlotAddr(arch, b, n)}
  }

  lemma {:induction false} FirstSlotsSize(arch: Arch, b: nat, n: nat)
    ensures |FirstSlots(arch, b, n)| == n
    ensures forall s :: s in FirstSlots(arch, b, n) ==> s <= SlotAddr(arch, b, n)
  {
    if n > 0 {
      FirstSlotsSize(arch, b, n - 1);
      assert SlotAddr(arch, b, n) !in FirstSlots(arch, b, n - 1);
    }
  }

  lemma SlotAddrOnCell(arch: Arch, b: nat, n: nat)
    requires b % BLOCK == 0
    ensures OnCell(arch, SlotAddr(arch, b, n))
  {
    var q := b / BLOCK;
    assert SlotAddr(X64, b, n) == 64 * (64 * q + n) && SlotAddr(X86, b, n) == 32 * (128 * q + n);
  }

  lemma {:induction false} FirstSlotsAre(arch: Arch, b: nat, n: nat, s: nat)
    requires b % BLOCK == 0
    ensures s in FirstSlots(arch, b, n) <==> OnCell(arch, s) && b + SlotSize(arch) <= s <= SlotAddr(arch, b, n)
  {
    hide OnCell;
    if n > 0 {
      FirstSlotsAre(arch, b, n - 1, s);
      SlotAddrOnCell(arch, b, n - 1);
      SlotAddrOnCell(arch, b, n);
      if OnCell(arch, s) && SlotAddr(arch, b, n - 1) < s {
        CellsApart(arch, SlotAddr(arch, b, n - 1), s);
      }
    }
  }

  function Elements(s: seq<nat>): set<nat> {
    set x | x in s
  }

  lemma {:induction false} DistinctSize(s: seq<nat>)
    requires Distinct(s)
    ensures |Elements(s)| == |s|
  {
    if s == [] {
      assert Elements(s) == {};
    } else {
      DistinctSize(s[1..]);
      assert Elements(s) == {s[0]} + Elements(s[1..]);
    }
  }

  /** The live slots of one block. */
  ghost function LiveSlots(arch: Arch, b: Block): set<nat> {
    FirstSlots(arch, b.addr, SlotCount(arch)) - Elements(b.free)
  }

  /**
   The used count in the header is the number of live slots; they are the slots outside the free list,
   and the two make up the block.
   */
  lemma UsedCountIsLive(arch: Arch, m: Mem, b: Block, next: nat)
    requires BlockOk(arch, b) && BlockIn(arch, m, b, next)
    ensures UsedCount(arch, m, b.addr) == |LiveSlots(arch, b)|
    ensures forall s: nat :: s in LiveSlots(arch, b) <==> IsSlot(arch, b.addr, s) && s !in b.free
    ensures |LiveSlots(arch, b)| + |b.free| == SlotCount(arch)
  {
    var all, free := FirstSlots(arch, b.addr, SlotCount(arch)), Elements(b.free);
    FirstSlotsSize(arch, b.addr, SlotCount(arch));
    DistinctSize(b.free);
    forall s: nat
      ensures s in all <==> IsSlot(arch, b.addr, s)
    {
      FirstSlotsAre(arch, b.addr, SlotCount(arch), s);
    }
    assert free <= all;
  }

  /** A block whose free list has all slots has no live one; with a live one the free list is shorter. */
  lemma AllFree(arch: Arch, b: Block, s: nat)
    requires BlockOk(arch, b) && IsSlot(arch, b.addr, s) && s !in b.free
    ensures |b.free| < SlotCount(arch)
  {
    var all, free := FirstSlots(arch, b.addr, SlotCount(arch)), Elements(b.free);
    FirstSlotsSize(arch, b.addr, SlotCount(arch));
    DistinctSize(b.free);
    FirstSlotsAre(arch, b.addr, SlotCount(arch), s);
    assert free <= all - {s} by {
      forall x | x in free
        ensures x in all
      {
        FirstSlotsAre(arch, b.addr, SlotCount(arch), x);
      }
    }
    SubsetSize(free, all - {s});
  }

  lemma {:induction false} SubsetSize(a: set<nat>, b: set<nat>)
    requires a <= b
    ensures |a| <= |b|
  {
    if a != {} {
      var x :| x in a;
      SubsetSize(a - {x}, b - {x});
    }
  }

  // ---------- The block list ----------

  lemma NextWritten(arch: Arch, m: Mem, b: Block, was: nat, next: nat)
    requires BlockOk(arch, b) && BlockIn(arch, m, b, was) && next < Modulus(arch)
    ensures BlockIn(arch, Store(m, b.addr, PtrSize(arch), next), b, next)
    ensures forall x :: !(b.addr <= x < b.addr + SlotSize(arch)) ==> Store(m, b.addr, PtrSize(arch), next)(x) == m(x)
  {
    hide OnCell, Load, Store;
    var w := PtrSize(arch);
    HeaderNotFree(arch, b);
    WordBound(arch, next);
    LoadStored(m, b.addr, w, next);
    LoadElsewhere(m, b.addr, w, next, b.addr + w, w);
    LoadElsewhere(m, b.addr, w, next, b.addr + 2 * w, 4);
    StoreElsewhere(m, b.addr, w, next);
    ChainFrame(arch, m, Store(m, b.addr, w, next), b.free, b.addr);
  }

  /** Replacing block k by b' after writes to its page only. */
  lemma BlockReplaced(arch: Arch, m: Mem, m': Mem, head: nat, bs: seq<Block>, k: nat, b': Block)
    requires HeapIn(arch, m, head, bs) && k < |bs| && b'.addr == bs[k].addr
    requires forall x :: !InPage(bs[k].addr, x) ==> m(x) == m'(x)
    requires BlockOk(arch, b') && BlockIn(arch, m', b', HeadBlock(bs[k + 1..]))
    ensures HeapIn(arch, m', head, bs[k := b'])
  {
    hide BlockIn;
    var bs' := bs[k := b'];
    forall i | 0 <= i < |bs'|
      ensures BlockOk(arch, bs'[i]) && BlockIn(arch, m', bs'[i], HeadBlock(bs'[i + 1..]))
    {
      assert HeadBlock(bs'[i + 1..]) == HeadBlock(bs[i + 1..]);
      if i != k {
        OtherPage(arch, bs, i, k);
        PageFrame(arch, m, m', bs[i], HeadBlock(bs[i + 1..]));
      }
    }
  }

  lemma OtherPage(arch: Arch, bs: seq<Block>, i: nat, k: nat)
    requires i < |bs| && k < |bs| && i != k && DistinctBlocks(bs) && BlockOk(arch, bs[i]) && BlockOk(arch, bs[k])
    ensures forall x :: InPage(bs[i].addr, x) ==> !InPage(bs[k].addr, x)
  {
    if bs[i].addr < bs[k].addr {
      PagesApart(bs[i].addr, bs[k].addr);
    } else {
      PagesApart(bs[k].addr, bs[i].addr);
    }
  }

  /** Registering block b, already built in memory with the old head as its successor. */
  lemma BlockAdded(arch: Arch, m: Mem, m': Mem, head: nat, bs: seq<Block>, b: Block)
    requires HeapIn(arch, m, head, bs)
    requires BlockOk(arch, b) && BlockIn(arch, m', b, head)
    requires forall i :: 0 <= i < |bs| ==> bs[i].addr != b.addr
    requires forall x :: !InPage(b.addr, x) ==> m(x) == m'(x)
    ensures HeapIn(arch, m', b.addr, [b] + bs)
  {
    hide BlockIn;
    var bs' := [b] + bs;
    assert DistinctBlocks(bs');
    forall i | 0 <= i < |bs'|
      ensures BlockOk(arch, bs'[i]) && BlockIn(arch, m', bs'[i], HeadBlock(bs'[i + 1..]))
    {
      if i == 0 {
        assert bs'[1..] == bs;
      } else {
        assert bs'[i] == bs[i - 1] && bs'[i + 1..] == bs[i..];
        assert BlockOk(arch, bs[i - 1]);
        OtherPage(arch, bs', i, 0);
        PageFrame(arch, m, m', bs[i - 1], HeadBlock(bs[i..]));
      }
    }
  }

  function Without(bs: seq<Block>, k: nat): seq<Block>
    requires k < |bs|
  {
    bs[..k] + bs[k + 1..]
  }

  /** Unlinking the first block. */
  lemma FirstUnlinked(arch: Arch, m: Mem, head: nat, bs: seq<Block>)
    requires HeapIn(arch, m, head, bs) && bs != []
    ensures HeapIn(arch, m, HeadBlock(bs[1..]), Without(bs, 0))
  {
    hide BlockIn, BlockOk;
    assert Without(bs, 0) == bs[1..];
    forall i | 0 <= i < |bs[1..]|
      ensures bs[1..][i + 1..] == bs[i + 2..] && bs[1..][i] == bs[i + 1]
    {
    }
  }

  /** Position i of the shortened list. */
  function Skip(k: nat, i: nat): nat {
    if i < k then i else i + 1
  }

  lemma WithoutAt(bs: seq<Block>, k: nat, i: nat)
    requires k < |bs| && i < |bs| - 1
    ensures |Without(bs, k)| == |bs| - 1 && Without(bs, k)[i] == bs[Skip(k, i)]
    ensures HeadBlock(Without(bs, k)[i + 1..]) == HeadBlock(bs[if i + 1 == k then k + 1 else Skip(k, i) + 1..])
  {
  }

  lemma WithoutDistinct(bs: seq<Block>, k: nat)
    requires k < |bs| && DistinctBlocks(bs)
    ensures DistinctBlocks(Without(bs, k))
  {
    var bs' := Without(bs, k);
    forall i, j | 0 <= i < j < |bs'|
      ensures bs'[i].addr != bs'[j].addr
    {
      WithoutAt(bs, k, i);
      WithoutAt(bs, k, j);
    }
  }

  /** Unlinking block k > 0 by writing its predecessor's next pointer. */
  lemma LaterUnlinked(arch: Arch, m: Mem, head: nat, bs: seq<Block>, k: nat)
    requires HeapIn(arch, m, head, bs) && 0 < k < |bs|
    ensures HeapIn(arch, Store(m, bs[k - 1].addr, PtrSize(arch), HeadBlock(bs[k + 1..])), head, Without(bs, k))
    ensures forall x :: !(bs[k - 1].addr <= x < bs[k - 1].addr + SlotSize(arch)) ==>
              Store(m, bs[k - 1].addr, PtrSize(arch), HeadBlock(bs[k + 1..]))(x) == m(x)
  {
    hide BlockIn, Store, Without, DistinctBlocks;
    var p, next := bs[k - 1], HeadBlock(bs[k + 1..]);
    var m' := Store(m, p.addr, PtrSize(arch), next);
    assert next < Modulus(arch) by {
      if k + 1 < |bs| {
        assert BlockOk(arch, bs[k + 1]);
      }
    }
    hide BlockOk;
    NextWritten(arch, m, p, HeadBlock(bs[k..]), next);
    WithoutDistinct(bs, k);
    var bs' := Without(bs, k);
    WithoutAt(bs, k, 0);
    forall i | 0 <= i < |bs'|
      ensures BlockOk(arch, bs'[i]) && BlockIn(arch, m', bs'[i], HeadBlock(bs'[i + 1..]))
    {
      WithoutAt(bs, k, i);
      if i != k - 1 {
        var j := Skip(k, i);
        OtherPage(arch, bs, j, k - 1);
        PageFrame(arch, m, m', bs[j], HeadBlock(bs[j + 1..]));
      }
    }
  }

  // ---------- Building a block ----------

  /** The free list after n slots have been put in front of it, lowest first. */
  function DownFrom(arch: Arch, b: nat, n: nat): (r: seq<nat>)
    ensures |r| == n
  {
    if n == 0 then [] else [SlotAddr(arch, b, n)] + DownFrom(arch, b, n - 1)
  }

  lemma {:induction false} DownFromIs(arch: Arch, b: nat, n: nat, j: nat)
    requires j < n
    ensures DownFrom(arch, b, n)[j] == SlotAddr(arch, b, n - j)
  {
    if j > 0 {
      DownFromIs(arch, b, n - 1, j - 1);
    }
  }

  /** A list of n <= SlotCount slots that is well formed as a free list. */
  lemma DownFromOk(arch: Arch, b: nat, n: nat)
    requires 0 < b && b % BLOCK == 0 && b + BLOCK <= Modulus(arch) && n <= SlotCount(arch)
    ensures BlockOk(arch, Block(b, DownFrom(arch, b, n)))
  {
    var free := DownFrom(arch, b, n);
    forall j | 0 <= j < n
      ensures IsSlot(arch, b, free[j])
    {
      DownFromIs(arch, b, n, j);
    }
    forall i, j | 0 <= i < j < n
      ensures free[i] != free[j]
    {
      DownFromIs(arch, b, n, i);
      DownFromIs(arch, b, n, j);
    }
  }

  /** n slots have been put into the free list of the block under construction at b. */
  ghost predicate Building(arch: Arch, m: Mem, b: nat, n: nat) {
    && FreePtr(arch, m, b) == Head(DownFrom(arch, b, n))
    && UsedCount(arch, m, b) == 0
    && FreeChain(arch, m, DownFrom(arch, b, n))
  }

  /** The memory after one more slot has been put in front. */
  function SlotAdded(arch: Arch, m: Mem, b: nat, s: nat): Mem {
    Store(Store(m, s, PtrSize(arch), FreePtr(arch, m, b)), b + PtrSize(arch), PtrSize(arch), s)
  }

  lemma BuildStarts(arch: Arch, m: Mem, b: nat)
    requires b + BLOCK <= Modulus(arch)
    ensures Building(arch, WithHeader(arch, m, b, 0, 0), b, 0)
    ensures forall x :: !(b <= x < b + SlotSize(arch)) ==> WithHeader(arch, m, b, 0, 0)(x) == m(x)
  {
    hide WithHeader, FreePtr, UsedCount, Load;
    HeaderWritten(arch, m, b, 0, 0);
  }

  lemma NextSlot(arch: Arch, b: nat, n: nat)
    requires 0 < b && b % BLOCK == 0 && b + BLOCK <= Modulus(arch) && n < SlotCount(arch)
    ensures var s := SlotAddr(arch, b, n + 1);
            && IsSlot(arch, b, s) && s < Modulus(arch) && s !in DownFrom(arch, b, n)
            && DownFrom(arch, b, n + 1) == [s] + DownFrom(arch, b, n)
  {
    var s, free, free' := SlotAddr(arch, b, n + 1), DownFrom(arch, b, n), DownFrom(arch, b, n + 1);
    DownFromOk(arch, b, n + 1);
    assert free' == [s] + free;
    hide IsSlot, DownFrom, SlotAddr;
    assert IsSlot(arch, b, free'[0]);
    assert forall j :: 0 <= j < n ==> free'[j + 1] == free[j] && free'[j + 1] != free'[0];
    SlotBound(arch, b, s);
  }

  lemma SlotBound(arch: Arch, b: nat, s: nat)
    requires IsSlot(arch, b, s) && b + BLOCK <= Modulus(arch) && b % BLOCK == 0
    ensures s < Modulus(arch) && OnCell(arch, s) && OnCell(arch, b) && s != b && InPage(b, s)
    ensures forall x :: s <= x < s + SlotSize(arch) || b <= x < b + SlotSize(arch) ==> InPage(b, x)
  {
  }

  lemma BuildStep(arch: Arch, m: Mem, b: nat, n: nat)
    requires 0 < b && b % BLOCK == 0 && b + BLOCK <= Modulus(arch) && n < SlotCount(arch)
    requires Building(arch, m, b, n)
    ensures var s := SlotAddr(arch, b, n + 1);
            && Building(arch, SlotAdded(arch, m, b, s), b, n + 1)
            && forall x :: !InPage(b, x) ==> SlotAdded(arch, m, b, s)(x) == m(x)
  {
    NextSlot(arch, b, n);
    DownFromOk(arch, b, n);
    var s, free := SlotAddr(arch, b, n + 1), DownFrom(arch, b, n);
    HeaderNotFree(arch, Block(b, free));
    SlotBound(arch, b, s);
    hide DownFrom, SlotAddr, IsSlot, BlockOk, OnCell, FreeChain, FreePtr, UsedCount, SlotAdded, InPage, SlotSize;
    BuildWrites(arch, m, b, s, free);
  }

  lemma BuildWrites(arch: Arch, m: Mem, b: nat, s: nat, free: seq<nat>)
    requires OnCell(arch, b) && OnCell(arch, s) && b != s && b !in free && s !in free && s < Modulus(arch)
    requires forall j :: 0 <= j < |free| ==> OnCell(arch, free[j]) && free[j] < Modulus(arch)
    requires FreePtr(arch, m, b) == Head(free) && UsedCount(arch, m, b) == 0 && FreeChain(arch, m, free)
    ensures var m' := SlotAdded(arch, m, b, s);
            && FreePtr(arch, m', b) == s && UsedCount(arch, m', b) == 0 && FreeChain(arch, m', [s] + free)
            && forall x :: !(b <= x < b + SlotSize(arch)) && !(s <= x < s + SlotSize(arch)) ==> m'(x) == m(x)
  {
    hide OnCell, Load, Store, FreeChain, FreePtr, UsedCount;
    var w := PtrSize(arch);
    var m1 := Store(m, s, w, Head(free));
    BuildHeader(arch, m, m1, b, s, Head(free));
    ChainFrame(arch, m, m1, free, s);
    ChainPush(arch, m, free, s);
    ChainFrame(arch, m1, Store(m1, b + w, w, s), [s] + free, b);
  }

  /** What linking slot s into the list does outside the list. */
  lemma BuildHeader(arch: Arch, m: Mem, m1: Mem, b: nat, s: nat, next: nat)
    requires OnCell(arch, b) && OnCell(arch, s) && b != s && s < Modulus(arch)
    requires m1 == Store(m, s, PtrSize(arch), next)
    ensures var w := PtrSize(arch);
            var m' := Store(m1, b + w, w, s);
            && FreePtr(arch, m', b) == s && UsedCount(arch, m', b) == UsedCount(arch, m, b)
            && (forall x :: !(s <= x < s + SlotSize(arch)) ==> m1(x) == m(x))
            && forall x :: !(b <= x < b + SlotSize(arch)) ==> m'(x) == m1(x)
  {
    hide OnCell, Load, Store;
    var w := PtrSize(arch);
    WordBound(arch, s);
    Disjoint(arch, b, s);
    StoreElsewhere(m, s, w, next);
    StoreElsewhere(m1, b + w, w, s);
    LoadStored(m1, b + w, w, s);
    LoadElsewhere(m, s, w, next, b + 2 * w, 4);
    LoadElsewhere(m1, b + w, w, s, b + 2 * w, 4);
  }

  // ---------- Which slots are live ----------

  lemma BuiltAllFree(arch: Arch, b: nat, s: nat)
    requires b % BLOCK == 0 && IsSlot(arch, b, s)
    ensures s in DownFrom(arch, b, SlotCount(arch))
  {
    var k := SlotIndex(arch, b, s);
    hide DownFrom;
    DownFromIs(arch, b, SlotCount(arch), SlotCount(arch) - k);
  }

  lemma SlotIndex(arch: Arch, b: nat, s: nat) returns (k: nat)
    requires b % BLOCK == 0 && IsSlot(arch, b, s)
    ensures 1 <= k <= SlotCount(arch) && SlotAddr(arch, b, k) == s
  {
    var q := b / BLOCK;
    assert b == BLOCK * q;
    if arch == X64 {
      var r := s / 64;
      assert s == 64 * r;
      k := r - 64 * q;
    } else {
      var r := s / 32;
      assert s == 32 * r;
      k := r - 128 * q;
    }
  }

  /** A new block has no live slot. */
  lemma AddedLive(arch: Arch, bs: seq<Block>, b: Block, s: int)
    requires BlockOk(arch, b) && b.free == DownFrom(arch, b.addr, SlotCount(arch))
    ensures IsLive(arch, [b] + bs, s) <==> IsLive(arch, bs, s)
  {
    var bs' := [b] + bs;
    if IsSlot(arch, b.addr, s) {
      BuiltAllFree(arch, b.addr, s);
    }
    hide IsSlot, DownFrom;
    if IsLive(arch, bs', s) {
      var i :| 0 <= i < |bs'| && IsSlot(arch, bs'[i].addr, s) && s !in bs'[i].free;
      assert i > 0 && bs'[i] == bs[i - 1];
    }
    if IsLive(arch, bs, s) {
      var i :| 0 <= i < |bs| && IsSlot(arch, bs[i].addr, s) && s !in bs[i].free;
      assert bs'[i + 1] == bs[i];
    }
  }

  /** Dropping a block that has all its slots back loses no live slot. */
  lemma DroppedLive(arch: Arch, bs: seq<Block>, k: nat, s: int)
    requires k < |bs| && BlockOk(arch, bs[k]) && |bs[k].free| == SlotCount(arch)
    ensures IsLive(arch, Without(bs, k), s) <==> IsLive(arch, bs, s)
  {
    if IsSlot(arch, bs[k].addr, s) && s !in bs[k].free {
      AllFree(arch, bs[k], s);
    }
    hide IsSlot;
    var bs' := Without(bs, k);
    if IsLive(arch, bs', s) {
      var i :| 0 <= i < |bs'| && IsSlot(arch, bs'[i].addr, s) && s !in bs'[i].free;
      assert bs'[i] == bs[if i < k then i else i + 1];
    }
    if IsLive(arch, bs, s) {
      var i :| 0 <= i < |bs| && IsSlot(arch, bs[i].addr, s) && s !in bs[i].free;
      assert bs[i] == bs'[if i < k then i else i - 1];
    }
  }

  /** A slot lies in one block only. */
  lemma OneBlock(arch: Arch, bs: seq<Block>, i: nat, k: nat, s: nat)
    requires DistinctBlocks(bs) && (forall j :: 0 <= j < |bs| ==> BlockOk(arch, bs[j]))
    requires i < |bs| && k < |bs| && IsSlot(arch, bs[i].addr, s) && IsSlot(arch, bs[k].addr, s)
    ensures i == k
  {
    if i != k {
      hide BlockOk;
      SlotOfOne(arch, bs, i, k, s);
    }
  }

  /** Exchanging the free list of block k changes the liveness of that block's slots only. */
  lemma ReplacedLive(arch: Arch, bs: seq<Block>, k: nat, b': Block, s: nat)
    requires DistinctBlocks(bs) && (forall j :: 0 <= j < |bs| ==> BlockOk(arch, bs[j]))
    requires k < |bs| && b'.addr == bs[k].addr
    ensures IsLive(arch, bs[k := b'], s) <==>
            if IsSlot(arch, b'.addr, s) then s !in b'.free else IsLive(arch, bs, s)
    ensures IsSlot(arch, b'.addr, s) ==> (IsLive(arch, bs, s) <==> s !in bs[k].free)
  {
    hide IsSlot, BlockOk;
    var bs' := bs[k := b'];
    if IsSlot(arch, b'.addr, s) {
      forall i | 0 <= i < |bs| && IsSlot(arch, bs[i].addr, s)
        ensures i == k
      {
        OneBlock(arch, bs, i, k, s);
      }
      assert bs'[k] == b';
    } else {
      if IsLive(arch, bs, s) {
        var i :| 0 <= i < |bs| && IsSlot(arch, bs[i].addr, s) && s !in bs[i].free;
        assert bs'[i] == bs[i];
      }
    }
  }

  // ---------- Taking and returning a slot of the heap ----------

  /** The blocks after block k gave away its first free slot. */
  ghost function Popping(bs: seq<Block>, k: nat): seq<Block>
    requires k < |bs| && bs[k].free != []
  {
    bs[k := Block(bs[k].addr, bs[k].free[1..])]
  }

  /** The blocks after slot s was put back into block k. */
  ghost function Pushing(bs: seq<Block>, k: nat, s: nat): seq<Block>
    requires k < |bs|
  {
    bs[k := Block(bs[k].addr, [s] + bs[k].free)]
  }

  /** Block k of a heap. */
  lemma BlockAt(arch: Arch, m: Mem, head: nat, bs: seq<Block>, k: nat)
    requires HeapIn(arch, m, head, bs) && k < |bs|
    ensures BlockOk(arch, bs[k]) && BlockIn(arch, m, bs[k], HeadBlock(bs[k + 1..]))
  {
    hide BlockIn, BlockOk;
  }

  lemma SlotTaken(arch: Arch, m: Mem, head: nat, bs: seq<Block>, k: nat)
    requires HeapIn(arch, m, head, bs) && k < |bs| && bs[k].free != []
    ensures var b := bs[k];
            && FreePtr(arch, m, b.addr) == b.free[0]
            && Load(m, b.free[0], PtrSize(arch)) == Head(b.free[1..])
            && var m' := WithHeader(arch, m, b.addr, Head(b.free[1..]), UsedCount(arch, m, b.addr) + 1);
               && HeapIn(arch, m', head, Popping(bs, k))
               && forall x :: !(b.addr <= x < b.addr + SlotSize(arch)) ==> m'(x) == m(x)
    ensures |bs[k].free| <= SlotCount(arch)
  {
    hide *;
    var b, next := bs[k], HeadBlock(bs[k + 1..]);
    BlockAt(arch, m, head, bs, k);
    TakenBlock(arch, m, b, next);
    var m' := WithHeader(arch, m, b.addr, Head(b.free[1..]), UsedCount(arch, m, b.addr) + 1);
    OwnCellsInPage(arch, b.addr);
    BlockReplaced(arch, m, m', head, bs, k, Block(b.addr, b.free[1..]));
    PoppingIs(bs, k);
  }

  lemma PoppingIs(bs: seq<Block>, k: nat)
    requires k < |bs| && bs[k].free != []
    ensures Popping(bs, k) == bs[k := Block(bs[k].addr, bs[k].free[1..])]
  {
  }

  /** One block after its first free slot has been taken. */
  lemma TakenBlock(arch: Arch, m: Mem, b: Block, next: nat)
    requires BlockOk(arch, b) && BlockIn(arch, m, b, next) && b.free != []
    ensures FreePtr(arch, m, b.addr) == b.free[0] && Load(m, b.free[0], PtrSize(arch)) == Head(b.free[1..])
    ensures var m', b' := WithHeader(arch, m, b.addr, Head(b.free[1..]), UsedCount(arch, m, b.addr) + 1),
            Block(b.addr, b.free[1..]);
            && BlockOk(arch, b') && BlockIn(arch, m', b', next)
            && forall x :: !(b.addr <= x < b.addr + SlotSize(arch)) ==> m'(x) == m(x)
    ensures |b.free| <= SlotCount(arch)
  {
    Popped(arch, m, b, next);
    hide WithHeader, Load, OnCell, IsSlot;
  }

  /** The slot taken was not live, and nothing else becomes live or stops being so. */
  lemma TakenLive(arch: Arch, m: Mem, head: nat, bs: seq<Block>, k: nat)
    requires HeapIn(arch, m, head, bs) && k < |bs| && bs[k].free != []
    ensures !IsLive(arch, bs, bs[k].free[0]) && IsSlot(arch, bs[k].addr, bs[k].free[0]) && bs[k].free[0] > 0
    ensures forall s: nat :: IsLive(arch, Popping(bs, k), s) <==> IsLive(arch, bs, s) || s == bs[k].free[0]
  {
    hide BlockIn, OnCell;
    var b := bs[k];
    assert BlockOk(arch, b);
    assert b.free == [b.free[0]] + b.free[1..];
    ReplacedLive(arch, bs, k, Block(b.addr, b.free[1..]), b.free[0]);
    hide BlockOk, IsSlot, IsLive;
    forall s: nat
      ensures IsLive(arch, Popping(bs, k), s) <==> IsLive(arch, bs, s) || s == b.free[0]
    {
      ReplacedLive(arch, bs, k, Block(b.addr, b.free[1..]), s);
    }
  }

  /** A live slot overlaps no header and lies within a page. */
  lemma LiveApart(arch: Arch, m: Mem, head: nat, bs: seq<Block>, s: nat, k: nat, x: int)
    requires HeapIn(arch, m, head, bs) && IsLive(arch, bs, s) && k < |bs| && s <= x < s + SlotSize(arch)
    ensures !(bs[k].addr <= x < bs[k].addr + SlotSize(arch))
    ensures InBlocks(bs, x)
  {
    hide BlockIn;
    var i :| 0 <= i < |bs| && IsSlot(arch, bs[i].addr, s) && s !in bs[i].free;
    assert InPage(bs[i].addr, x);
    if i != k {
      assert BlockOk(arch, bs[i]) && BlockOk(arch, bs[k]);
      OtherPage(arch, bs, i, k);
      assert !InPage(bs[k].addr, x);
    }
  }

  /** The memory after slot s has been put in front of the free list of the block at b. */
  function SlotReturnedTo(arch: Arch, m: Mem, b: nat, s: nat): Mem {
    WithHeader(arch, Store(m, s, PtrSize(arch), FreePtr(arch, m, b)), b, s, Trunc32(UsedCount(arch, m, b) - 1))
  }

  lemma SlotReturned(arch: Arch, m: Mem, head: nat, bs: seq<Block>, k: nat, s: nat)
    requires HeapIn(arch, m, head, bs) && k < |bs|
    requires IsSlot(arch, bs[k].addr, s) && s !in bs[k].free && |bs[k].free| < SlotCount(arch)
    ensures UsedCount(arch, m, bs[k].addr) > 0
    ensures var b, m' := bs[k], SlotReturnedTo(arch, m, bs[k].addr, s);
            && HeapIn(arch, m', head, Pushing(bs, k, s))
            && (forall x :: !(b.addr <= x < b.addr + SlotSize(arch)) && !(s <= x < s + SlotSize(arch)) ==>
                m'(x) == m(x))
            && UsedCount(arch, m', b.addr) + |b.free| + 1 == SlotCount(arch)
  {
    hide *;
    var b, next := bs[k], HeadBlock(bs[k + 1..]);
    BlockAt(arch, m, head, bs, k);
    ReturnedBlock(arch, m, b, next, s);
    OwnCellsInPage(arch, b.addr);
    SlotInPage(arch, b.addr, s);
    BlockReplaced(arch, m, SlotReturnedTo(arch, m, b.addr, s), head, bs, k, Block(b.addr, [s] + b.free));
    PushingIs(bs, k, s);
  }

  lemma PushingIs(bs: seq<Block>, k: nat, s: nat)
    requires k < |bs|
    ensures Pushing(bs, k, s) == bs[k := Block(bs[k].addr, [s] + bs[k].free)]
  {
  }

  /** The header of a block lies in its page. */
  lemma OwnCellsInPage(arch: Arch, b: nat)
    ensures forall x :: !InPage(b, x) ==> !(b <= x < b + SlotSize(arch))
  {
  }

  lemma SlotInPage(arch: Arch, b: nat, s: nat)
    requires IsSlot(arch, b, s)
    ensures forall x :: !InPage(b, x) ==> !(s <= x < s + SlotSize(arch))
  {
  }

  /** One block after one of its slots has come back. */
  lemma ReturnedBlock(arch: Arch, m: Mem, b: Block, next: nat, s: nat)
    requires BlockOk(arch, b) && BlockIn(arch, m, b, next)
    requires IsSlot(arch, b.addr, s) && s !in b.free && |b.free| < SlotCount(arch)
    ensures UsedCount(arch, m, b.addr) > 0
    ensures var m', b' := SlotReturnedTo(arch, m, b.addr, s), Block(b.addr, [s] + b.free);
            && BlockOk(arch, b') && BlockIn(arch, m', b', next)
            && (forall x :: !(b.addr <= x < b.addr + SlotSize(arch)) && !(s <= x < s + SlotSize(arch)) ==>
                m'(x) == m(x))
            && UsedCount(arch, m', b.addr) + |b.free| + 1 == SlotCount(arch)
  {
    hide WithHeader, Load, OnCell, Store, Head, BlockOk, IsSlot;
    Pushed(arch, m, b, next, s);
  }

  lemma ReturnedLive(arch: Arch, m: Mem, head: nat, bs: seq<Block>, k: nat, s: nat)
    requires HeapIn(arch, m, head, bs) && k < |bs|
    requires IsSlot(arch, bs[k].addr, s) && s !in bs[k].free
    ensures forall x: nat :: IsLive(arch, Pushing(bs, k, s), x) <==> IsLive(arch, bs, x) && x != s
  {
    hide BlockIn, OnCell, BlockOk, IsSlot, IsLive;
    forall x: nat
      ensures IsLive(arch, Pushing(bs, k, s), x) <==> IsLive(arch, bs, x) && x != s
    {
      ReplacedLive(arch, bs, k, Block(bs[k].addr, [s] + bs[k].free), x);
    }
  }

  /** The page of a slot, computed by rounding down, is its block. */
  lemma PageOfSlot(arch: Arch, b: nat, s: nat)
    requires b % BLOCK == 0 && InPage(b, s)
    ensures s / BLOCK * BLOCK == b
  {
  }

  /** The block a live slot belongs to. */
  lemma BlockOfLive(arch: Arch, m: Mem, head: nat, bs: seq<Block>, s: nat, k: nat)
    requires HeapIn(arch, m, head, bs) && k < |bs| && InPage(bs[k].addr, s) && IsLive(arch, bs, s)
    ensures IsSlot(arch, bs[k].addr, s) && s !in bs[k].free
  {
    hide BlockIn;
    var i :| 0 <= i < |bs| && IsSlot(arch, bs[i].addr, s) && s !in bs[i].free;
    if i != k {
      assert BlockOk(arch, bs[i]) && BlockOk(arch, bs[k]);
      SlotOfOne(arch, bs, i, k, s);
    }
  }
}
