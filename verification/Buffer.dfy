/** buffer.c: the slot allocator. */
module Buffer {
  import opened Bytes
  import opened Cpu
  import opened TrampolineSpec
  import opened ProcessState
  import opened Region
  import opened SlotHeap

  const MAX_MEMORY_RANGE: nat := 0x4000_0000

  ghost predicate Unused(bs: seq<Block>, code: int -> bool, p: nat) {
    0 < p && forall x :: InPage(p, x) ==> !InBlocks(bs, x) && !code(x)
  }

  /** The page at p belongs to no registered block and holds no code. */
  ghost predicate FreshPage(arch: Arch, bs: seq<Block>, code: int -> bool, p: nat) {
    p % BLOCK == 0 && p + BLOCK <= Modulus(arch) && Unused(bs, code, p)
  }

  /** What the operating system guarantees: coherent answers, and only unused pages are handed out. */
  ghost predicate OsOk(arch: Arch, os: Os, bs: seq<Block>, code: int -> bool) {
    && (arch == X86 && os.anywhere != 0 ==> FreshPage(arch, bs, code, os.anywhere))
    && (arch == X64 ==>
          && os.gran > 0 && os.gran % BLOCK == 0 && Coherent(os)
          && forall p: nat :: os.grant(p) && Aligned(p, os.gran) ==> Unused(bs, code, p) && p + BLOCK <= Modulus(arch))
  }

  /** Lowest and highest block address within reach of a rel32 jump from the origin. */
  function MinAddr(os: Os, origin: nat): nat {
    if origin > MAX_MEMORY_RANGE && os.minApp < origin - MAX_MEMORY_RANGE then origin - MAX_MEMORY_RANGE else os.minApp
  }

  function MaxAddr(os: Os, origin: nat): int {
    (if origin + MAX_MEMORY_RANGE < os.maxApp then origin + MAX_MEMORY_RANGE else os.maxApp) - (BLOCK - 1)
  }

  /** A block at b is close enough to the origin. */
  predicate InReach(arch: Arch, origin: nat, b: nat) {
    arch == X64 ==> origin <= b + MAX_MEMORY_RANGE && b + BLOCK - 1 <= origin + MAX_MEMORY_RANGE
  }

  /** In reach means within 1 GB on x64, and anywhere on x86. */
  lemma ReachMeans(arch: Arch, origin: nat, b: nat)
    ensures InReach(arch, origin, b) <==>
            arch == X86 || (origin - 0x4000_0000 <= b && b + 0xFFF <= origin + 0x4000_0000)
  {
  }

  /** Target and slot are no farther apart than blocks are looked for. */
  predicate SlotNear(arch: Arch, target: nat, slot: nat) {
    arch == X64 ==> target <= slot + MAX_MEMORY_RANGE && slot <= target + MAX_MEMORY_RANGE
  }

  lemma ReachedSlotNear(arch: Arch, target: nat, b: nat, slot: nat)
    requires IsSlot(arch, b, slot) && InReach(arch, target, b)
    ensures SlotNear(arch, target, slot)
  {
    hide OnCell;
  }

  /** No free address in [lo, hi) is granted. */
  ghost predicate NoneGranted(os: Os, lo: int, hi: int)
    requires os.gran > 0
  {
    forall a: nat :: Aligned(a, os.gran) && lo <= a < hi && FreeAt(os, a) ==> !os.grant(a)
  }

  lemma NoneFreeNoneGranted(os: Os, lo: int, mid: int, hi: int)
    requires os.gran > 0 && NoneGranted(os, mid, hi) && NoneFree(os, lo, mid)
    ensures NoneGranted(os, lo, hi)
  {
    hide Aligned;
  }

  lemma RefusedBelow(os: Os, at: nat, hi: int)
    requires os.gran > 0 && NoneGranted(os, at + 1, hi) && (!os.grant(at) || !FreeAt(os, at))
    ensures NoneGranted(os, at, hi)
  {
    hide Aligned;
  }

  lemma RefusedAbove(os: Os, lo: int, at: nat)
    requires os.gran > 0 && NoneGranted(os, lo, at) && !os.grant(at)
    ensures NoneGranted(os, lo, at + 1)
  {
    hide Aligned;
  }

  lemma PassedOver(os: Os, lo: int, hi: int, a: nat)
    requires os.gran > 0 && Aligned(a, os.gran) && FreeAt(os, a) && os.grant(a)
    ensures NoneGranted(os, lo, hi) ==> a < lo || hi <= a
  {
  }

  lemma FloorOfAligned(a: nat, g: nat)
    requires g > 0 && Aligned(a, g)
    ensures Floor(a, g) == a
  {
  }

  lemma NothingGranted(os: Os, lo: int, hi: int)
    requires os.gran > 0 && hi <= lo
    ensures NoneGranted(os, lo, hi)
  {
    hide Aligned;
  }

  /** Allocates a block below the origin, nearest first. */
  method AllocBelow(os: Os, pOrigin: nat, minAddr: nat) returns (pBlock: nat)
    requires Coherent(os) && pOrigin <= os.maxApp && 0 < minAddr
    ensures pBlock != 0 ==> os.grant(pBlock) && Aligned(pBlock, os.gran) && minAddr <= pBlock <= pOrigin
    ensures NoneGranted(os, if pBlock == 0 then minAddr else pBlock + 1, Floor(pOrigin, os.gran))
  {
    QueryAt(os, 0);
    FloorAligned(pOrigin, os.gran);
    hide *;
    ghost var top := Floor(pOrigin, os.gran);
    ghost var granule := top;
    var pAlloc: nat := pOrigin;
    NothingGranted(os, granule, top);
    while pAlloc >= minAddr
      invariant granule == Floor(pAlloc, os.gran) <= pAlloc <= pOrigin
      invariant NoneGranted(os, granule, top)
      decreases pAlloc
    {
      var r := FindPrevFreeRegion(os, pAlloc, minAddr);
      NoneFreeNoneGranted(os, if r == 0 then minAddr else r + 1, granule, top);
      if r == 0 {
        return 0;
      }
      if os.grant(r) {
        return r;
      }
      RefusedBelow(os, r, top);
      FloorOfAligned(r, os.gran);
      pAlloc, granule := r, r;
    }
    pBlock := 0;
    FewerGranted(os, granule, minAddr, top);
  }

  lemma FewerGranted(os: Os, lo: int, lo': int, hi: int)
    requires os.gran > 0 && NoneGranted(os, lo, hi) && lo <= lo'
    ensures NoneGranted(os, lo', hi)
  {
    hide Aligned;
  }

  /** Allocates a block above the origin, nearest first. */
  method AllocAbove(os: Os, pOrigin: nat, maxAddr: nat) returns (pBlock: nat)
    requires Coherent(os) && pOrigin <= os.maxApp && maxAddr <= os.maxApp
    ensures pBlock != 0 ==> os.grant(pBlock) && Aligned(pBlock, os.gran) && pOrigin < pBlock <= maxAddr
    ensures NoneGranted(os, Floor(pOrigin, os.gran) + 1, if pBlock == 0 then maxAddr + 1 else pBlock)
  {
    QueryAt(os, 0);
    FloorAligned(pOrigin, os.gran);
    hide *;
    ghost var lo := Floor(pOrigin, os.gran) + 1;
    ghost var granule := Floor(pOrigin, os.gran);
    var pAlloc := pOrigin;
    NothingGranted(os, lo, granule + 1);
    while pAlloc <= maxAddr
      invariant granule == Floor(pAlloc, os.gran) <= pAlloc <= os.maxApp && pOrigin <= pAlloc
      invariant pAlloc < granule + os.gran
      invariant NoneGranted(os, lo, granule + 1)
      decreases os.maxApp - pAlloc
    {
      var r := FindNextFreeRegion(os, pAlloc, maxAddr);
      NextNoneGranted(os, lo, granule + 1, if r == 0 then maxAddr + 1 else r);
      if r == 0 {
        return 0;
      }
      if os.grant(r) {
        return r;
      }
      RefusedAbove(os, lo, r);
      FloorOfAligned(r, os.gran);
      pAlloc, granule := r, r;
    }
    pBlock := 0;
    BeyondGranule(os, lo, granule, pAlloc, maxAddr);
  }

  lemma NextNoneGranted(os: Os, lo: int, mid: int, hi: int)
    requires os.gran > 0 && NoneGranted(os, lo, mid) && NoneFree(os, mid, hi)
    ensures NoneGranted(os, lo, hi)
  {
    hide Aligned;
  }

  /** Nothing aligned lies between a granule and the address it was computed from. */
  lemma BeyondGranule(os: Os, lo: int, granule: nat, at: nat, maxAddr: nat)
    requires Coherent(os) && NoneGranted(os, lo, granule + 1) && granule == Floor(at, os.gran) && maxAddr < at
    ensures NoneGranted(os, lo, maxAddr + 1)
  {
    FloorAligned(at, os.gran);
    NextMultiple(granule, os.gran);
    hide Aligned, Floor, Coherent;
  }

  /** A granted page is a page. */
  lemma GrantedPage(arch: Arch, os: Os, bs: seq<Block>, code: int -> bool, p: nat)
    requires arch == X64 && OsOk(arch, os, bs, code) && os.grant(p) && Aligned(p, os.gran)
    ensures FreshPage(arch, bs, code, p)
  {
    hide Coherent, Unused;
    MultipleOfMultiple(p, os.gran, BLOCK);
  }

  lemma MultipleOfMultiple(a: nat, g: nat, h: nat)
    requires g > 0 && h > 0 && a % g == 0 && g % h == 0
    ensures a % h == 0
  {
    var q, k := a / g, g / h;
    Quotient(a, g);
    Quotient(g, h);
    assert a == h * k * q;
    assert h * k * q == h * (k * q);
    ModMultiple(k * q, h);
  }

  class SlotAllocator {
    const arch: Arch
    const proc: Process
    /** Addresses that hold code of the program; the operating system never hands them out. */
    const code: int -> bool
    /** g_pMemoryBlocks, the first block of the list. */
    var gBlocks: nat
    /** The blocks in list order, with their free lists. */
    ghost var blocks: seq<Block>

    constructor (arch: Arch, proc: Process, code: int -> bool)
      ensures this.arch == arch && this.proc == proc && this.code == code
      ensures Valid() && blocks == []
    {
      this.arch, this.proc, this.code := arch, proc, code;
      gBlocks, blocks := 0, [];
    }

    /** Between calls: the lists in memory are intact and every block has a slot in use. */
    ghost predicate Valid()
      reads this, proc
    {
      Sound(blocks, gBlocks, proc.mem) && InUse(blocks)
    }

    ghost predicate Sound(bs: seq<Block>, head: nat, m: Mem)
      reads {}
    {
      HeapIn(arch, m, head, bs) && forall x :: InBlocks(bs, x) ==> !code(x)
    }

    ghost predicate InUse(bs: seq<Block>) {
      forall i :: 0 <= i < |bs| ==> |bs[i].free| < SlotCount(arch)
    }

    /** Slots handed out and not returned. */
    ghost predicate Live(s: int)
      reads this
    {
      IsLive(arch, blocks, s)
    }

    /** Looks through the registered blocks for a reachable one with an unused slot. */
    method FindRegistered(minAddr: int, maxAddr: int) returns (pBlock: nat, ghost k: nat)
      requires Valid()
      ensures pBlock != 0 ==> k < |blocks| && blocks[k].addr == pBlock && blocks[k].free != []
      ensures pBlock != 0 && arch == X64 ==> minAddr <= pBlock < maxAddr
      ensures pBlock == 0 ==> forall i :: 0 <= i < |blocks| && (arch == X64 ==> minAddr <= blocks[i].addr < maxAddr) ==>
              blocks[i].free == []
    {
      hide BlockOk, FreeChain, Load, NextPtr, FreePtr, UsedCount;
      pBlock, k := gBlocks, 0;
      while pBlock != 0
        invariant k <= |blocks| && pBlock == HeadBlock(blocks[k..])
        invariant forall i :: 0 <= i < k && (arch == X64 ==> minAddr <= blocks[i].addr < maxAddr) ==>
                  blocks[i].free == []
        decreases |blocks| - k
      {
        assert BlockIn(arch, proc.mem, blocks[k], HeadBlock(blocks[k + 1..]));
        FirstFreeNonzero(arch, blocks[k]);
        // A block outside the range is passed over.
        if arch == X86 || (minAddr <= pBlock < maxAddr) {
          if FreePtr(arch, proc.mem, pBlock) != 0 {
            return;
          }
        }
        pBlock := NextPtr(arch, proc.mem, pBlock);
        k := k + 1;
      }
      if k < |blocks| {
        FirstFreeNonzero(arch, blocks[k]);
      }
    }

    /** Builds the free list of a new block and registers it in front of the others. */
    method RegisterBlock(pBlock: nat)
      requires Sound(blocks, gBlocks, proc.mem)
      requires FreshPage(arch, blocks, code, pBlock)
      modifies this`gBlocks, this`blocks, proc`mem
      ensures Sound(blocks, gBlocks, proc.mem)
      ensures blocks == [Block(pBlock, DownFrom(arch, pBlock, SlotCount(arch)))] + old(blocks)
      ensures forall x :: !InPage(pBlock, x) ==> proc.mem(x) == old(proc.mem)(x)
    {
      hide HeapIn, FreeChain, Load, Store, OnCell, DownFrom, IsSlot;
      ghost var m, bs := proc.mem, blocks;
      BuildStarts(arch, proc.mem, pBlock);
      proc.mem := WithHeader(arch, proc.mem, pBlock, 0, 0);
      var pSlot := pBlock + SlotSize(arch);
      ghost var n := 0;
      // Each slot is pushed in front of the list, so the last one ends up first.
      while pSlot - pBlock <= BLOCK - SlotSize(arch)
        invariant gBlocks == old(gBlocks) && blocks == bs
        invariant n <= SlotCount(arch) && pSlot == SlotAddr(arch, pBlock, n + 1)
        invariant Building(arch, proc.mem, pBlock, n)
        invariant forall x :: !InPage(pBlock, x) ==> proc.mem(x) == m(x)
        decreases SlotCount(arch) - n
      {
        BuildStep(arch, proc.mem, pBlock, n);
        proc.mem := SlotAdded(arch, proc.mem, pBlock, pSlot);
        pSlot := pSlot + SlotSize(arch);
        n := n + 1;
      }
      BlockRegistered(arch, m, proc.mem, gBlocks, bs, pBlock, code);
      proc.mem := Store(proc.mem, pBlock, PtrSize(arch), gBlocks);
      gBlocks := pBlock;
      blocks := [Block(pBlock, DownFrom(arch, pBlock, SlotCount(arch)))] + blocks;
    }

    /** A registered block with an unused slot, or a new one; 0 (NULL) exactly when no block is reachable. */
    method GetMemoryBlock(os: Os, pOrigin: nat) returns (pBlock: nat, ghost k: nat)
      requires Valid() && OsOk(arch, os, blocks, code)
      requires arch == X64 ==> pOrigin <= os.maxApp
      modifies this`gBlocks, this`blocks, proc`mem
      ensures Sound(blocks, gBlocks, proc.mem)
      ensures pBlock == 0 ==> blocks == old(blocks) && gBlocks == old(gBlocks) && proc.mem == old(proc.mem)
      ensures pBlock == 0 ==> NoBlockFor(os, pOrigin)
      ensures pBlock != 0 ==>
              k < |blocks| && blocks[k].addr == pBlock && blocks[k].free != [] && InReach(arch, pOrigin, pBlock)
      ensures pBlock != 0 ==>
                || (blocks == old(blocks) && proc.mem == old(proc.mem))
                || (&& k == 0 && blocks == [Block(pBlock, DownFrom(arch, pBlock, SlotCount(arch)))] + old(blocks)
                    && FreshPage(arch, old(blocks), code, pBlock) && Chosen(old(blocks), os, pOrigin, pBlock)
                    && forall x :: !InPage(pBlock, x) ==> proc.mem(x) == old(proc.mem)(x))
    {
      hide HeapIn, DownFrom, NoneGranted, BlockOk;
      var minAddr, maxAddr := 0, 0;
      if arch == X64 {
        minAddr, maxAddr := MinAddr(os, pOrigin), MaxAddr(os, pOrigin);
        ReachBounds(os, pOrigin);
      }
      pBlock, k := FindRegistered(minAddr, maxAddr);
      if pBlock != 0 {
        return;
      }
      if arch == X64 {
        // No block will do: look for a free region below, and failing that above.
        pBlock := AllocBelow(os, pOrigin, minAddr);
        if pBlock == 0 && maxAddr >= 0 {
          pBlock := AllocAbove(os, pOrigin, maxAddr);
        }
        if pBlock != 0 {
          GrantedPage(arch, os, blocks, code, pBlock);
        }
      } else {
        pBlock := os.anywhere;
      }
      if pBlock != 0 {
        RegisterBlock(pBlock);
        k := 0;
      }
    }

    /** No registered block within reach has an unused slot. */
    ghost predicate AllFull(bs: seq<Block>, os: Os, origin: nat) {
      forall i :: 0 <= i < |bs| && (arch == X64 ==> MinAddr(os, origin) <= bs[i].addr < MaxAddr(os, origin)) ==>
        bs[i].free == []
    }

    /**
     A new block at b is made only when no registered one will do. On x64 it is the nearest below the origin that is
     granted, or the nearest above if there is none below.
     */
    ghost predicate Chosen(bs: seq<Block>, os: Os, origin: nat, b: nat) {
      && AllFull(bs, os, origin)
      && if arch == X86 then b == os.anywhere
         else
           && os.gran > 0
           && if b <= origin then NoneGranted(os, b + 1, Floor(origin, os.gran))
              else
                && NoneGranted(os, MinAddr(os, origin), Floor(origin, os.gran))
                && NoneGranted(os, Floor(origin, os.gran) + 1, b)
    }

    /** What this means: a free page that is granted and was passed over is farther away, or out of reach. */
    lemma ChosenMeans(bs: seq<Block>, os: Os, origin: nat, b: nat)
      requires Chosen(bs, os, origin, b) && arch == X64
      ensures forall a: nat ::
                a % os.gran == 0 && os.query(a).Region? && os.query(a).free && os.grant(a) &&
                os.minApp <= a && origin <= a + 0x4000_0000 && a < origin - origin % os.gran ==>
                  a <= b <= origin
      ensures forall a: nat ::
                a % os.gran == 0 && os.query(a).Region? && os.query(a).free && os.grant(a) && b > origin &&
                origin - origin % os.gran < a ==>
                  b <= a
      ensures forall i ::
                0 <= i < |bs| && os.minApp <= bs[i].addr && origin <= bs[i].addr + 0x4000_0000 &&
                bs[i].addr + 0xFFF < os.maxApp && bs[i].addr + 0xFFF < origin + 0x4000_0000 ==>
                  bs[i].free == []
    {
      forall a: nat | a % os.gran == 0 && os.query(a).Region? && os.query(a).free && os.grant(a)
        ensures Aligned(a, os.gran) && FreeAt(os, a)
      {
      }
      hide NoneGranted;
      forall a: nat | a % os.gran == 0 && os.query(a).Region? && os.query(a).free && os.grant(a) &&
                      os.minApp <= a && origin <= a + 0x4000_0000 && a < origin - origin % os.gran
        ensures a <= b <= origin
      {
        PassedOver(os, b + 1, Floor(origin, os.gran), a);
        PassedOver(os, MinAddr(os, origin), Floor(origin, os.gran), a);
      }
      forall a: nat | a % os.gran == 0 && os.query(a).Region? && os.query(a).free && os.grant(a) && b > origin &&
                      origin - origin % os.gran < a
        ensures b <= a
      {
        PassedOver(os, Floor(origin, os.gran) + 1, b, a);
      }
    }

    /** No registered block within reach has an unused slot, and the operating system grants none. */
    ghost predicate NoBlockFor(os: Os, origin: nat)
      reads this
    {
      if arch == X86 then os.anywhere == 0 && AllFull(blocks, os, origin)
      else
        && os.gran > 0
        && AllFull(blocks, os, origin)
        && NoneGranted(os, MinAddr(os, origin), Floor(origin, os.gran))
        && NoneGranted(os, Floor(origin, os.gran) + 1, MaxAddr(os, origin) + 1)
    }

    /** What it means that there is no block: on x64, everything within 1 GB of the origin is taken or refused. */
    lemma NoBlockMeans(os: Os, origin: nat)
      requires NoBlockFor(os, origin) && arch == X64
      ensures forall b: nat ::
                b % os.gran == 0 && b != origin - origin % os.gran && os.query(b).Region? && os.query(b).free &&
                os.minApp <= b && origin <= b + 0x4000_0000 &&
                b + 0xFFF <= os.maxApp && b + 0xFFF <= origin + 0x4000_0000 ==>
                  !os.grant(b)
      ensures forall i ::
                0 <= i < |blocks| &&
                os.minApp <= blocks[i].addr && origin <= blocks[i].addr + 0x4000_0000 &&
                blocks[i].addr + 0xFFF < os.maxApp && blocks[i].addr + 0xFFF < origin + 0x4000_0000 ==>
                  blocks[i].free == []
    {
      forall b: nat | b % os.gran == 0 && b != origin - origin % os.gran && os.query(b).Region? && os.query(b).free &&
                      os.minApp <= b && origin <= b + 0x4000_0000 &&
                      b + 0xFFF <= os.maxApp && b + 0xFFF <= origin + 0x4000_0000
        ensures !os.grant(b)
      {
        assert FreeAt(os, b) && Aligned(b, os.gran);
        assert MinAddr(os, origin) <= b < MaxAddr(os, origin) + 1;
        assert b < Floor(origin, os.gran) || Floor(origin, os.gran) + 1 <= b;
      }
    }

    /**
     Hands out a slot near pOrigin: one that was not live, in a block within reach. No code and
     no live slot is touched. It fails only when there is no room within reach.
     */
    method AllocateBuffer(os: Os, pOrigin: nat) returns (pSlot: nat)
      requires Valid() && OsOk(arch, os, blocks, code)
      requires arch == X64 ==> pOrigin <= os.maxApp
      modifies this`gBlocks, this`blocks, proc`mem
      ensures Valid()
      ensures pSlot == 0 ==> blocks == old(blocks) && proc.mem == old(proc.mem) && NoBlockFor(os, pOrigin)
      ensures pSlot != 0 ==> !old(Live(pSlot)) && forall s: nat :: Live(s) <==> old(Live(s)) || s == pSlot
      ensures pSlot != 0 ==>
              exists b: nat :: IsSlot(arch, b, pSlot) && b + BLOCK <= Modulus(arch) && InReach(arch, pOrigin, b)
      ensures || |blocks| == |old(blocks)|
              || (|blocks| == |old(blocks)| + 1 && Chosen(old(blocks), os, pOrigin, blocks[0].addr))
      ensures pSlot != 0 ==> forall x :: pSlot <= x < pSlot + SlotSize(arch) ==> !code(x)
      ensures forall x :: code(x) ==> proc.mem(x) == old(proc.mem)(x)
      ensures forall s: nat, x :: old(Live(s)) && s <= x < s + SlotSize(arch) ==> proc.mem(x) == old(proc.mem)(x)
    {
      hide HeapIn, BlockOk, IsLive, IsSlot, Load, WithHeader, DownFrom, NoneGranted, FreshPage, InBlocks, Popping,
           InPage;
      ghost var m0, bs0 := proc.mem, blocks;
      var pBlock;
      ghost var k;
      pBlock, k := GetMemoryBlock(os, pOrigin);
      if pBlock == 0 {
        return 0;
      }
      ghost var m1, bs1 := proc.mem, blocks;
      // The first free slot is handed out.
      SlotTaken(arch, proc.mem, gBlocks, blocks, k);
      TakenLive(arch, proc.mem, gBlocks, blocks, k);
      pSlot := FreePtr(arch, proc.mem, pBlock);
      var next := Load(proc.mem, pSlot, PtrSize(arch));
      proc.mem := WithHeader(arch, proc.mem, pBlock, next, UsedCount(arch, proc.mem, pBlock) + 1);
      blocks := Popping(blocks, k);
      PoppedPages(bs1, k);
      InUseAfterTaking(arch, bs0, bs1, k, code);
      AfterTaking(arch, m0, old(gBlocks), bs0, m1, gBlocks, bs1, proc.mem, k, code);
      assert IsSlot(arch, pBlock, pSlot);
      PageBound(arch, m1, gBlocks, bs1, k);
      SlotNotCode(pSlot);
    }

    /** No byte of a live slot is code. */
    lemma SlotNotCode(s: nat)
      requires Valid() && Live(s)
      ensures forall x :: s <= x < s + SlotSize(arch) ==> !code(x)
    {
      hide HeapIn, IsLive;
      forall x | s <= x < s + SlotSize(arch)
        ensures !code(x)
      {
        LiveInPage(arch, blocks, s, x);
      }
    }

    /** A page is kept only while one of its slots is in use. */
    lemma BlockKept(i: nat)
      requires Valid() && i < |blocks|
      ensures exists s: nat :: Live(s) && blocks[i].addr < s < blocks[i].addr + 0x1000
    {
      SlotHeap.BlockAt(arch, proc.mem, gBlocks, blocks, i);
      hide HeapIn, BlockOk, BlockIn, OnCell;
      UsedCountIsLive(arch, proc.mem, blocks[i], HeadBlock(blocks[i + 1..]));
      assert |LiveSlots(arch, blocks[i])| > 0;
      var s :| s in LiveSlots(arch, blocks[i]);
      assert IsSlot(arch, blocks[i].addr, s) && s !in blocks[i].free;
      assert Live(s);
    }

    /** Writing a live slot keeps the allocator sound. */
    lemma SlotWritten(s: nat, m: Mem)
      requires Sound(blocks, gBlocks, m) && InUse(blocks) && Live(s)
      requires forall x :: !(s <= x < s + SlotSize(arch)) ==> proc.mem(x) == m(x)
      ensures Valid()
    {
      hide HeapIn, IsLive;
      LiveFrame(arch, m, proc.mem, gBlocks, blocks, s);
    }

    /** Walks the block list to the block at pTarget. */
    method FindBlock(pTarget: nat) returns (pBlock: nat, pPrev: nat, ghost k: nat)
      requires Valid()
      ensures pBlock != 0 ==> k < |blocks| && pBlock == blocks[k].addr == pTarget
      ensures pBlock != 0 ==> pPrev == if k == 0 then 0 else blocks[k - 1].addr
      ensures pBlock == 0 ==> forall i :: 0 <= i < |blocks| ==> blocks[i].addr != pTarget
    {
      hide BlockOk, FreeChain, Load, NextPtr, FreePtr, UsedCount;
      pBlock, pPrev, k := gBlocks, 0, 0;
      while pBlock != 0
        invariant k <= |blocks| && pBlock == HeadBlock(blocks[k..])
        invariant pPrev == if k == 0 then 0 else blocks[k - 1].addr
        invariant forall i :: 0 <= i < k ==> blocks[i].addr != pTarget
        decreases |blocks| - k
      {
        if pBlock == pTarget {
          return;
        }
        assert BlockIn(arch, proc.mem, blocks[k], HeadBlock(blocks[k + 1..]));
        pPrev := pBlock;
        pBlock := NextPtr(arch, proc.mem, pBlock);
        k := k + 1;
      }
      if k < |blocks| {
        FirstFreeNonzero(arch, blocks[k]);
      }
    }

    /**
     Takes back a slot handed out before: exactly that slot stops being live, no code and no other
     live slot is touched, and a block whose last live slot it was is released.
     */
    method FreeBuffer(pBuffer: nat)
      requires Valid()
      requires Live(pBuffer) || !InBlocks(blocks, pBuffer)
      modifies this`gBlocks, this`blocks, proc`mem
      ensures Valid()
      ensures old(Live(pBuffer)) ==> forall s: nat :: Live(s) <==> old(Live(s)) && s != pBuffer
      ensures !old(Live(pBuffer)) ==> blocks == old(blocks) && gBlocks == old(gBlocks) && proc.mem == old(proc.mem)
      ensures forall x :: code(x) ==> proc.mem(x) == old(proc.mem)(x)
      ensures forall s: nat, x :: old(Live(s)) && s != pBuffer && s <= x < s + SlotSize(arch) ==>
              proc.mem(x) == old(proc.mem)(x)
      ensures forall x :: InBlocks(blocks, x) ==> old(InBlocks(blocks, x))
    {
      hide HeapIn, BlockOk, IsLive, IsSlot, Load, Store, WithHeader, SlotReturnedTo, Pushing, Without, InPage,
           InBlocks, HeadBlock;
      var pBlock, pPrev;
      ghost var k;
      pBlock, pPrev, k := FindBlock(pBuffer / BLOCK * BLOCK);
      TargetBlock(arch, proc.mem, gBlocks, blocks, pBuffer);
      if pBlock == 0 {
        return;
      }
      ghost var m0, bs0 := proc.mem, blocks;
      BlockOfLive(arch, proc.mem, gBlocks, blocks, pBuffer, k);
      SlotReturned(arch, proc.mem, gBlocks, blocks, k, pBuffer);
      ReturnedLive(arch, proc.mem, gBlocks, blocks, k, pBuffer);
      // The slot becomes the first free one.
      proc.mem := SlotReturnedTo(arch, proc.mem, pBlock, pBuffer);
      blocks := Pushing(blocks, k, pBuffer);
      ghost var m1 := proc.mem;
      SamePages(bs0, k, pBuffer);
      // It was the last live slot: the page goes back to the system.
      if UsedCount(arch, proc.mem, pBlock) == 0 {
        AfterDropping(arch, m1, gBlocks, blocks, k);
        if pPrev != 0 {
          HeaderOf(arch, m1, gBlocks, blocks, k);
          LaterUnlinked(arch, m1, gBlocks, blocks, k);
          proc.mem := Store(proc.mem, pPrev, PtrSize(arch), NextPtr(arch, proc.mem, pBlock));
        } else {
          HeaderOf(arch, m1, gBlocks, blocks, k);
          FirstUnlinked(arch, m1, gBlocks, blocks);
          gBlocks := NextPtr(arch, proc.mem, pBlock);
        }
        blocks := Without(blocks, k);
      }
      AfterFreeing(arch, m0, old(gBlocks), bs0, proc.mem, k, pBuffer, code);
    }

    /** Releases all blocks: no slot is live any more. */
    method UninitializeBuffer()
      requires Valid()
      modifies this`gBlocks, this`blocks
      ensures Valid() && blocks == []
      ensures forall s :: !Live(s)
    {
      hide BlockOk, FreeChain, Load, NextPtr, FreePtr, UsedCount;
      var pBlock := gBlocks;
      ghost var k, head := 0, gBlocks;
      gBlocks := 0;
      while pBlock != 0
        invariant gBlocks == 0 && blocks == old(blocks) && HeapIn(arch, proc.mem, head, blocks)
        invariant k <= |blocks| && pBlock == HeadBlock(blocks[k..])
        decreases |blocks| - k
      {
        assert BlockIn(arch, proc.mem, blocks[k], HeadBlock(blocks[k + 1..]));
        pBlock := NextPtr(arch, proc.mem, pBlock);
        k := k + 1;
      }
      if k < |blocks| {
        FirstFreeNonzero(arch, blocks[k]);
      }
      blocks := [];
    }
  }

  lemma LiveInPage(arch: Arch, bs: seq<Block>, s: nat, x: int)
    requires IsLive(arch, bs, s) && s <= x < s + SlotSize(arch)
    ensures InBlocks(bs, x)
  {
    var i :| 0 <= i < |bs| && IsSlot(arch, bs[i].addr, s) && s !in bs[i].free;
    assert InPage(bs[i].addr, x);
  }

  lemma PageBound(arch: Arch, m: Mem, head: nat, bs: seq<Block>, k: nat)
    requires HeapIn(arch, m, head, bs) && k < |bs|
    ensures bs[k].addr + BLOCK <= Modulus(arch)
  {
    hide BlockIn;
  }

  /** After taking a slot from block k every block is in use, and the pages hold no code. */
  lemma PoppedPages(bs: seq<Block>, k: nat)
    requires k < |bs| && bs[k].free != []
    ensures |Popping(bs, k)| == |bs| && forall i :: 0 <= i < |bs| ==> Popping(bs, k)[i].addr == bs[i].addr
  {
  }

  lemma InUseAfterTaking(arch: Arch, bs0: seq<Block>, bs1: seq<Block>, k: nat, code: int -> bool)
    requires k < |bs1| && bs1[k].free != [] && |bs1[k].free| <= SlotCount(arch)
    requires forall x :: InBlocks(bs1, x) ==> !code(x)
    requires forall i :: 0 <= i < |bs0| ==> |bs0[i].free| < SlotCount(arch)
    requires bs1 == bs0 || (k == 0 && bs1[1..] == bs0)
    ensures forall x :: InBlocks(Popping(bs1, k), x) ==> !code(x)
    ensures forall i :: 0 <= i < |Popping(bs1, k)| ==> |Popping(bs1, k)[i].free| < SlotCount(arch)
  {
    forall i | 0 <= i < |bs1|
      ensures |Popping(bs1, k)[i].free| < SlotCount(arch)
    {
      if i != k {
        assert bs1[i] == if bs1 == bs0 then bs0[i] else bs0[i - 1];
      }
    }
    forall x | InBlocks(Popping(bs1, k), x)
      ensures !code(x)
    {
      var i :| 0 <= i < |bs1| && InPage(Popping(bs1, k)[i].addr, x);
      assert InPage(bs1[i].addr, x);
    }
  }

  /** What an allocation leaves alone: code and live slots. */
  lemma AfterTaking(arch: Arch, m0: Mem, head0: nat, bs0: seq<Block>, m1: Mem, head1: nat, bs1: seq<Block>, m2: Mem,
                    k: nat, code: int -> bool)
    requires HeapIn(arch, m0, head0, bs0) && HeapIn(arch, m1, head1, bs1) && k < |bs1|
    requires forall x :: InBlocks(bs1, x) ==> !code(x)
    requires || (bs1 == bs0 && m1 == m0)
             || (&& k == 0 && bs1 == [Block(bs1[0].addr, DownFrom(arch, bs1[0].addr, SlotCount(arch)))] + bs0
                 && FreshPage(arch, bs0, code, bs1[0].addr) && forall x :: !InPage(bs1[0].addr, x) ==> m1(x) == m0(x))
    requires forall x :: !(bs1[k].addr <= x < bs1[k].addr + SlotSize(arch)) ==> m2(x) == m1(x)
    ensures forall x :: code(x) ==> m2(x) == m0(x)
    ensures forall s: nat, x :: IsLive(arch, bs0, s) && s <= x < s + SlotSize(arch) ==> m2(x) == m0(x)
    ensures forall s: nat :: IsLive(arch, bs1, s) <==> IsLive(arch, bs0, s)
  {
    SameLive(arch, m0, head0, bs0, m1, head1, bs1, k, code);
    hide HeapIn, IsLive, FreshPage, DownFrom;
    forall x | code(x)
      ensures m2(x) == m0(x)
    {
      assert !InBlocks(bs1, x) && !InPage(bs1[k].addr, x);
    }
    hide InBlocks;
    forall s: nat, x | IsLive(arch, bs0, s) && s <= x < s + SlotSize(arch)
      ensures m2(x) == m0(x)
    {
      LiveApart(arch, m1, head1, bs1, s, k, x);
      LiveKept(arch, m0, head0, bs0, bs1, k, s, x, code);
    }
  }

  /** A byte of a live slot is not in a page that was fresh. */
  lemma LiveKept(arch: Arch, m0: Mem, head0: nat, bs0: seq<Block>, bs1: seq<Block>, k: nat, s: nat, x: int,
                 code: int -> bool)
    requires HeapIn(arch, m0, head0, bs0) && IsLive(arch, bs0, s) && s <= x < s + SlotSize(arch)
    requires bs1 != []
    ensures FreshPage(arch, bs0, code, bs1[0].addr) ==> !InPage(bs1[0].addr, x)
  {
    hide HeapIn;
    assert IsLive(arch, bs0, s);
    var i :| 0 <= i < |bs0| && IsSlot(arch, bs0[i].addr, s) && s !in bs0[i].free;
    assert InPage(bs0[i].addr, x);
  }

  lemma SameLive(arch: Arch, m0: Mem, head0: nat, bs0: seq<Block>, m1: Mem, head1: nat, bs1: seq<Block>, k: nat,
                 code: int -> bool)
    requires HeapIn(arch, m1, head1, bs1) && k < |bs1|
    requires bs1 == bs0 || bs1 == [Block(bs1[0].addr, DownFrom(arch, bs1[0].addr, SlotCount(arch)))] + bs0
    ensures forall s: nat :: IsLive(arch, bs1, s) <==> IsLive(arch, bs0, s)
  {
    hide IsLive, DownFrom, BlockIn;
    if bs1 != bs0 {
      assert BlockOk(arch, bs1[0]);
      forall s: nat
        ensures IsLive(arch, bs1, s) <==> IsLive(arch, bs0, s)
      {
        AddedLive(arch, bs0, bs1[0], s);
      }
    }
  }

  /** A fully built block whose next pointer is set to the old head is a registered block. */
  lemma BlockRegistered(arch: Arch, m: Mem, m': Mem, head: nat, bs: seq<Block>, b: nat, code: int -> bool)
    requires HeapIn(arch, m, head, bs) && (forall x :: InBlocks(bs, x) ==> !code(x))
    requires FreshPage(arch, bs, code, b)
    requires Building(arch, m', b, SlotCount(arch))
    requires forall x :: !InPage(b, x) ==> m'(x) == m(x)
    ensures var bs' := [Block(b, DownFrom(arch, b, SlotCount(arch)))] + bs;
            && HeapIn(arch, Store(m', b, PtrSize(arch), head), b, bs')
            && forall x :: InBlocks(bs', x) ==> !code(x)
    ensures forall x :: !InPage(b, x) ==> Store(m', b, PtrSize(arch), head)(x) == m'(x)
  {
    var block := Block(b, DownFrom(arch, b, SlotCount(arch)));
    DownFromOk(arch, b, SlotCount(arch));
    HeadInRange(arch, m, head, bs);
    hide DownFrom, Store, Load, OnCell, FreeChain, BlockOk;
    NextWritten(arch, m', block, NextPtr(arch, m', b), head);
    forall i | 0 <= i < |bs|
      ensures bs[i].addr != b
    {
      assert InPage(bs[i].addr, bs[i].addr);
      assert InBlocks(bs, bs[i].addr);
    }
    BlockAdded(arch, m, Store(m', b, PtrSize(arch), head), head, bs, block);
    forall x | InBlocks([block] + bs, x)
      ensures !code(x)
    {
      var i :| 0 <= i < |[block] + bs| && InPage(([block] + bs)[i].addr, x);
      assert i == 0 || InPage(bs[i - 1].addr, x);
    }
  }

  lemma HeadInRange(arch: Arch, m: Mem, head: nat, bs: seq<Block>)
    requires HeapIn(arch, m, head, bs)
    ensures head < Modulus(arch)
  {
    hide BlockIn;
  }

  lemma FirstFreeNonzero(arch: Arch, b: Block)
    ensures BlockOk(arch, b) ==> b.addr != 0 && (Head(b.free) == 0 <==> b.free == [])
  {
    hide OnCell;
  }

  lemma ReachBounds(os: Os, origin: nat)
    requires Coherent(os) && os.gran % BLOCK == 0 && origin <= os.maxApp
    ensures 0 < MinAddr(os, origin) && 0 <= MaxAddr(os, origin) <= os.maxApp
    ensures forall b: nat :: MinAddr(os, origin) <= b <= MaxAddr(os, origin) ==> InReach(X64, origin, b)
    ensures forall b: nat :: MinAddr(os, origin) <= b <= origin ==> InReach(X64, origin, b)
  {
    assert os.gran >= BLOCK;
  }

  /** Rounding a live slot's address down finds its block; rounding an address of no block down finds none. */
  lemma TargetBlock(arch: Arch, m: Mem, head: nat, bs: seq<Block>, p: nat)
    requires HeapIn(arch, m, head, bs) && (IsLive(arch, bs, p) || !InBlocks(bs, p))
    ensures IsLive(arch, bs, p) ==> exists i :: 0 <= i < |bs| && bs[i].addr == p / BLOCK * BLOCK
    ensures forall i :: 0 <= i < |bs| && bs[i].addr == p / BLOCK * BLOCK ==>
            InPage(bs[i].addr, p) && IsLive(arch, bs, p)
  {
    hide BlockIn;
    if IsLive(arch, bs, p) {
      var i :| 0 <= i < |bs| && IsSlot(arch, bs[i].addr, p) && p !in bs[i].free;
      assert BlockOk(arch, bs[i]);
      PageOfSlot(arch, bs[i].addr, p);
    }
    forall i | 0 <= i < |bs| && bs[i].addr == p / BLOCK * BLOCK
      ensures InPage(bs[i].addr, p)
    {
    }
  }

  /** The header of block k. */
  lemma HeaderOf(arch: Arch, m: Mem, head: nat, bs: seq<Block>, k: nat)
    requires HeapIn(arch, m, head, bs) && k < |bs|
    ensures NextPtr(arch, m, bs[k].addr) == HeadBlock(bs[k + 1..])
    ensures UsedCount(arch, m, bs[k].addr) + |bs[k].free| == SlotCount(arch)
    ensures forall i :: 0 <= i < |bs| ==> bs[i].addr != 0
  {
    hide FreeChain, Load, NextPtr, FreePtr, UsedCount;
    assert BlockIn(arch, m, bs[k], HeadBlock(bs[k + 1..]));
    forall i | 0 <= i < |bs|
      ensures bs[i].addr != 0
    {
      assert BlockOk(arch, bs[i]);
    }
  }

  lemma SamePages(bs: seq<Block>, k: nat, s: nat)
    requires k < |bs|
    ensures |Pushing(bs, k, s)| == |bs| && |Pushing(bs, k, s)[k].free| == |bs[k].free| + 1
    ensures forall i :: 0 <= i < |bs| ==>
            Pushing(bs, k, s)[i].addr == bs[i].addr && (i != k ==> Pushing(bs, k, s)[i] == bs[i])
    ensures forall x :: InBlocks(Pushing(bs, k, s), x) <==> InBlocks(bs, x)
  {
    forall x
      ensures InBlocks(Pushing(bs, k, s), x) <==> InBlocks(bs, x)
    {
      var bs' := Pushing(bs, k, s);
      if InBlocks(bs', x) {
        var i :| 0 <= i < |bs'| && InPage(bs'[i].addr, x);
        assert InPage(bs[i].addr, x);
      }
      if InBlocks(bs, x) {
        var i :| 0 <= i < |bs| && InPage(bs[i].addr, x);
        assert InPage(bs'[i].addr, x);
      }
    }
  }

  lemma AfterDropping(arch: Arch, m: Mem, head: nat, bs: seq<Block>, k: nat)
    requires HeapIn(arch, m, head, bs) && k < |bs| && UsedCount(arch, m, bs[k].addr) == 0
    ensures forall s: nat :: IsLive(arch, Without(bs, k), s) <==> IsLive(arch, bs, s)
    ensures forall x :: InBlocks(Without(bs, k), x) ==> InBlocks(bs, x)
    ensures forall i :: 0 <= i < |Without(bs, k)| ==> Without(bs, k)[i] == bs[Skip(k, i)]
    ensures |Without(bs, k)| == |bs| - 1
  {
    HeaderOf(arch, m, head, bs, k);
    assert BlockOk(arch, bs[k]);
    hide IsLive, BlockOk, BlockIn;
    forall s: nat
      ensures IsLive(arch, Without(bs, k), s) <==> IsLive(arch, bs, s)
    {
      DroppedLive(arch, bs, k, s);
    }
    forall i | 0 <= i < |bs| - 1
      ensures Without(bs, k)[i] == bs[Skip(k, i)]
    {
      WithoutAt(bs, k, i);
    }
    forall x | InBlocks(Without(bs, k), x)
      ensures InBlocks(bs, x)
    {
      var i :| 0 <= i < |Without(bs, k)| && InPage(Without(bs, k)[i].addr, x);
      assert InPage(bs[Skip(k, i)].addr, x);
    }
  }

  ghost predicate InHeader(arch: Arch, bs: seq<Block>, k: nat, x: int)
    requires k < |bs|
  {
    bs[k].addr <= x < bs[k].addr + SlotSize(arch)
  }

  /** What freeing slot p of block k leaves alone: code and the other live slots. */
  lemma AfterFreeing(arch: Arch, m0: Mem, head0: nat, bs0: seq<Block>, m2: Mem, k: nat, p: nat, code: int -> bool)
    requires HeapIn(arch, m0, head0, bs0) && k < |bs0| && IsLive(arch, bs0, p)
    requires forall x :: InBlocks(bs0, x) ==> !code(x)
    requires forall x ::
               !InHeader(arch, bs0, k, x) && !(k > 0 && InHeader(arch, bs0, k - 1, x)) &&
               !(p <= x < p + SlotSize(arch)) ==>
                 m2(x) == m0(x)
    ensures forall x :: code(x) ==> m2(x) == m0(x)
    ensures forall s: nat, x :: IsLive(arch, bs0, s) && s != p && s <= x < s + SlotSize(arch) ==> m2(x) == m0(x)
  {
    hide HeapIn, IsLive;
    forall x | code(x)
      ensures m2(x) == m0(x)
    {
      assert !InPage(bs0[k].addr, x) && (k > 0 ==> !InPage(bs0[k - 1].addr, x));
      if p <= x < p + SlotSize(arch) {
        LiveApart(arch, m0, head0, bs0, p, k, x);
      }
    }
    forall s: nat, x | IsLive(arch, bs0, s) && s != p && s <= x < s + SlotSize(arch)
      ensures m2(x) == m0(x)
    {
      LiveApart(arch, m0, head0, bs0, s, k, x);
      if k > 0 {
        LiveApart(arch, m0, head0, bs0, s, k - 1, x);
      }
      LiveCells(arch, bs0, s, p);
    }
  }

  /** Different live slots do not overlap. */
  lemma LiveCells(arch: Arch, bs: seq<Block>, s: nat, p: nat)
    requires IsLive(arch, bs, s) && IsLive(arch, bs, p) && s != p
    ensures s + SlotSize(arch) <= p || p + SlotSize(arch) <= s
  {
    hide SlotSize;
    assert OnCell(arch, s) && OnCell(arch, p);
    hide OnCell;
    Disjoint(arch, s, p);
  }
}
