/**
 When a trampoline is faithful, read off the original code: where its jumps go, what they jump over,
 and how far its operands reach. All of it can be checked before the trampoline is built.
 */
module TrampolineCode {
  import opened Bytes
  import opened Cpu
  import opened TrampolineSpec
  import opened TrampolineSim
  import opened SlotHeap
  import opened Buffer

  // ---------- Instruction boundaries ----------

  /** off is an instruction boundary of the code at target, counted from its first instruction. */
  ghost predicate OnGrid(decode: Decoder, m: Mem, target: nat, off: nat)
    decreases off
  {
    off == 0 || exists p: nat ::
      p < off && OnGrid(decode, m, target, p) && p + decode(Read(m, target + p, WINDOW)).len == off
  }

  lemma CopyReport(arch: Arch, decode: Decoder, m0: Mem, target: nat, slot: nat, cs: seq<Copy>, k: nat)
    requires Layout(arch, decode, m0, target, slot, cs) && k < |cs|
    ensures cs[k].h == decode(Read(m0, target + cs[k].oldPos, WINDOW))
  {
    hide Translate, Ends, BranchesKeepDistance, JmpCode, Chained;
    assert CopyOk(arch, decode, m0, target, slot, cs[k]);
  }

  /** A boundary of the original code is copied, unless the last copied instruction lies before it. */
  lemma {:induction false} GridCopied(arch: Arch, decode: Decoder, m0: Mem, target: nat, slot: nat, cs: seq<Copy>,
                                      off: nat)
    requires DecoderSane(arch, decode) && Layout(arch, decode, m0, target, slot, cs)
    requires OnGrid(decode, m0, target, off)
    ensures off >= SourceEnd(cs) || exists k :: 0 <= k < |cs| && cs[k].oldPos == off
    decreases off
  {
    hide CopyOk, Ends, BranchesKeepDistance, DecoderSane;
    if off == 0 {
      assert cs[0].oldPos == off;
    } else {
      var p: nat :| p < off && OnGrid(decode, m0, target, p) && p + decode(Read(m0, target + p, WINDOW)).len == off;
      GridCopied(arch, decode, m0, target, slot, cs, p);
      if p < SourceEnd(cs) {
        var k :| 0 <= k < |cs| && cs[k].oldPos == p;
        CopyReport(arch, decode, m0, target, slot, cs, k);
        if k + 1 < |cs| {
          assert Follows(cs[k], cs[k + 1]);
        }
      }
    }
  }

  /** Internal branches of code that jumps only to its own instruction boundaries go to copied boundaries. */
  lemma InternalDestCopied(arch: Arch, decode: Decoder, m0: Mem, target: nat, slot: nat, cs: seq<Copy>, i: nat)
    requires DecoderSane(arch, decode) && Layout(arch, decode, m0, target, slot, cs)
    requires i < |cs| && InternalBranch(arch, target, cs[i])
    requires OnGrid(decode, m0, target, InternalDest(arch, target, cs[i]) - target)
    ensures exists k :: 0 <= k < |cs| && target + cs[k].oldPos == InternalDest(arch, target, cs[i])
  {
    hide CopyOk, Chained, BranchesKeepDistance, Dest;
    var off := InternalDest(arch, target, cs[i]) - target;
    GridCopied(arch, decode, m0, target, slot, cs, off);
    var last := cs[|cs| - 1];
    assert CopyOk(arch, decode, m0, target, slot, last);
    LastLength(arch, decode, m0, target, slot, last);
  }

  lemma LastLength(arch: Arch, decode: Decoder, m0: Mem, target: nat, slot: nat, x: Copy)
    requires DecoderSane(arch, decode) && CopyOk(arch, decode, m0, target, slot, x)
    ensures x.h.len >= 1
    ensures RipJump(arch, x.h) ==> x.h.len >= 6
  {
  }

  lemma {:induction false} CopiedOnGrid(arch: Arch, decode: Decoder, m0: Mem, target: nat, slot: nat, cs: seq<Copy>,
                                        k: nat)
    requires DecoderSane(arch, decode) && Layout(arch, decode, m0, target, slot, cs) && k < |cs|
    ensures OnGrid(decode, m0, target, cs[k].oldPos)
  {
    hide CopyOk, Ends, BranchesKeepDistance, DecoderSane, OnGrid;
    if k == 0 {
      GridStart(decode, m0, target);
    } else {
      LayoutIsShaped(arch, decode, m0, target, slot, cs);
      CopiedOnGrid(arch, decode, m0, target, slot, cs, k - 1);
      CopyReport(arch, decode, m0, target, slot, cs, k - 1);
      assert Follows(cs[k - 1], cs[k]);
      GridNext(decode, m0, target, cs[k - 1].oldPos, cs[k].oldPos);
    }
  }

  lemma GridStart(decode: Decoder, m: Mem, target: nat)
    ensures OnGrid(decode, m, target, 0)
  {
  }

  lemma GridNext(decode: Decoder, m: Mem, target: nat, p: nat, off: nat)
    requires OnGrid(decode, m, target, p) && p < off && p + decode(Read(m, target + p, WINDOW)).len == off
    ensures OnGrid(decode, m, target, off)
  {
  }

  // ---------- What happens to the length of an instruction ----------

  function InstrAt(decode: Decoder, m: Mem, target: nat, off: nat): Hde {
    decode(Read(m, target + off, WINDOW))
  }

  /** The instruction at `from` is replaced by a longer form: a call, or a branch out of the first five bytes. */
  predicate Rewritten(arch: Arch, target: nat, h: Hde, from: int) {
    || Classify(arch, h) == CallRel
    || (IsBranch(Classify(arch, h)) && !Internal(target, Dest(arch, h, from)))
  }

  /** An instruction of at most four bytes grows if it is rewritten, and keeps its length if not. */
  lemma CopyGrows(arch: Arch, decode: Decoder, m0: Mem, target: nat, slot: nat, c: Copy)
    requires DecoderSane(arch, decode) && CopyOk(arch, decode, m0, target, slot, c) && !Closing(c)
    ensures !Rewritten(arch, target, c.h, target + c.oldPos) ==> |c.code| == c.h.len
    ensures Rewritten(arch, target, c.h, target + c.oldPos) && c.h.len <= 4 ==> |c.code| > c.h.len
  {
    hide Dest, Sext32, Trunc32;
  }

  /** The copies from k to i have kept their total length exactly when no instruction between them was rewritten. */
  lemma {:induction false} BackwardDistance(arch: Arch, decode: Decoder, m0: Mem, target: nat, slot: nat, cs: seq<Copy>,
                                            k: nat, i: nat)
    requires DecoderSane(arch, decode) && Layout(arch, decode, m0, target, slot, cs)
    requires k <= i < |cs| && !Closing(cs[i])
    ensures cs[i].newPos - cs[k].newPos >= cs[i].oldPos - cs[k].oldPos
    ensures DistanceKept(cs, k, i) <==>
            forall j :: k <= j < i ==> !Rewritten(arch, target, cs[j].h, target + cs[j].oldPos)
    decreases i - k
  {
    hide Ends, BranchesKeepDistance, Rewritten, DecoderSane, CopyOk;
    if k < i {
      LayoutIsShaped(arch, decode, m0, target, slot, cs);
      Increasing(cs, k, i);
      CopyAt(arch, decode, m0, target, slot, cs, k);
      CopyGrows(arch, decode, m0, target, slot, cs[k]);
      BackwardDistance(arch, decode, m0, target, slot, cs, k + 1, i);
      hide Layout, Shaped;
    }
  }

  lemma CopyAt(arch: Arch, decode: Decoder, m0: Mem, target: nat, slot: nat, cs: seq<Copy>, k: nat)
    requires Layout(arch, decode, m0, target, slot, cs) && k < |cs|
    ensures CopyOk(arch, decode, m0, target, slot, cs[k])
    ensures k + 1 < |cs| ==> Follows(cs[k], cs[k + 1])
  {
    hide CopyOk, Ends, BranchesKeepDistance;
  }

  // ---------- The code that will be copied ----------

  /**
   The number of bytes from the target on that the builder decodes before it is done, counted from
   the instruction at off, when the farthest internal destination so far is `farthest`.
   */
  function CodeLength(arch: Arch, decode: Decoder, m: Mem, target: nat, off: nat, farthest: nat): nat
    requires DecoderSane(arch, decode)
    decreases if off < JMP_REL then JMP_REL - off else 0
  {
    var h := InstrAt(decode, m, target, off);
    var d := if off < JMP_REL && StaysInside(arch, target, h, off) then Dest(arch, h, target + off) else 0;
    var far := if farthest < d then d else farthest;
    if Finishes(arch, target, h, off, far) then off + h.len else CodeLength(arch, decode, m, target, off + h.len, far)
  }

  /** The instruction at off is a branch to one of the first five bytes. */
  predicate StaysInside(arch: Arch, target: nat, h: Hde, off: nat) {
    IsBranch(Classify(arch, h)) && Internal(target, Dest(arch, h, target + off))
  }

  /** The relocation consumes exactly that many bytes. */
  lemma {:induction false} RelocatedLength(arch: Arch, decode: Decoder, m: Mem, target: nat, slot: nat, cs: seq<Copy>)
    requires DecoderSane(arch, decode)
    ensures var r := Relocate(arch, decode, m, target, slot, cs);
            r.Some? ==>
              r.value != [] && SourceEnd(r.value) ==
                CodeLength(arch, decode, m, target, NextOld(cs), FarthestInternal(arch, target, cs))
    decreases if NextOld(cs) < JMP_REL then JMP_REL - NextOld(cs) else 0
  {
    hide CodeAt, Finishes, FarthestInternal, InternalDest, StaysInside, InstrAt, Read, DecoderSane, Dest;
    var next := NextCopy(arch, decode, m, target, slot, cs);
    if next.Some? {
      var c := next.value;
      LengthNext(arch, decode, m, target, slot, cs, c);
      if !Finishes(arch, target, c.h, c.oldPos, FarthestInternal(arch, target, cs + [c])) {
        NotFinished(arch, target, c.h, c.oldPos, FarthestInternal(arch, target, cs + [c]));
        RelocatedLength(arch, decode, m, target, slot, cs + [c]);
      }
    }
  }

  /** One step of the count. */
  lemma LengthNext(arch: Arch, decode: Decoder, m: Mem, target: nat, slot: nat, cs: seq<Copy>, c: Copy)
    requires DecoderSane(arch, decode) && NextCopy(arch, decode, m, target, slot, cs) == Some(c)
    ensures c.oldPos == NextOld(cs) && 1 <= c.h.len
    ensures var far := FarthestInternal(arch, target, cs + [c]);
            CodeLength(arch, decode, m, target, NextOld(cs), FarthestInternal(arch, target, cs)) ==
              if Finishes(arch, target, c.h, c.oldPos, far) then c.oldPos + c.h.len
              else CodeLength(arch, decode, m, target, c.oldPos + c.h.len, far)
  {
    hide CodeAt, Finishes, FarthestInternal, Dest, Classify;
    FarthestAppended(arch, target, cs, c);
  }

  lemma NotFinished(arch: Arch, target: nat, h: Hde, o: nat, farthest: nat)
    requires !Finishes(arch, target, h, o, farthest)
    ensures o < JMP_REL
  {
  }

  lemma FarthestAppended(arch: Arch, target: nat, cs: seq<Copy>, c: Copy)
    ensures var before, d := FarthestInternal(arch, target, cs), InternalDest(arch, target, c);
            FarthestInternal(arch, target, cs + [c]) == if before < d then d else before
  {
    assert (cs + [c])[..|cs|] == cs;
  }

  /** An instruction starts at off and will be copied. */
  ghost predicate CopiedStart(arch: Arch, decode: Decoder, m: Mem, target: nat, off: nat)
    requires DecoderSane(arch, decode)
  {
    off < JMP_REL && off < CodeLength(arch, decode, m, target, 0, 0) && OnGrid(decode, m, target, off)
  }

  // ---------- Jumps ----------

  /** No instruction from offset `to` up to off is replaced by a longer form. */
  ghost predicate BackwardClear(arch: Arch, decode: Decoder, m: Mem, target: nat, to: nat, off: nat) {
    forall o: nat :: to <= o < off && OnGrid(decode, m, target, o) ==>
      !Rewritten(arch, target, InstrAt(decode, m, target, o), target + o)
  }

  /**
   A branch within the first five bytes goes to an instruction, and backwards only over instructions that keep
   their form.
   */
  ghost predicate JumpStays(arch: Arch, decode: Decoder, m: Mem, target: nat, off: nat) {
    var h := InstrAt(decode, m, target, off);
    StaysInside(arch, target, h, off) ==>
      var to := Dest(arch, h, target + off) - target;
      OnGrid(decode, m, target, to) && (to <= off ==> BackwardClear(arch, decode, m, target, to, off))
  }

  /** Copy i starts at an instruction, and its report is that instruction's. */
  lemma StartOf(arch: Arch, decode: Decoder, m0: Mem, target: nat, slot: nat, cs: seq<Copy>, i: nat)
    requires DecoderSane(arch, decode) && Layout(arch, decode, m0, target, slot, cs) && i < |cs|
    ensures OnGrid(decode, m0, target, cs[i].oldPos) && cs[i].h == InstrAt(decode, m0, target, cs[i].oldPos)
  {
    hide Layout, OnGrid, DecoderSane;
    CopiedOnGrid(arch, decode, m0, target, slot, cs, i);
    CopyReport(arch, decode, m0, target, slot, cs, i);
  }

  lemma DistanceIffClear(arch: Arch, decode: Decoder, m0: Mem, target: nat, slot: nat, cs: seq<Copy>, k: nat, i: nat)
    requires DecoderSane(arch, decode) && Layout(arch, decode, m0, target, slot, cs)
    requires k <= i < |cs| && !Closing(cs[i])
    ensures DistanceKept(cs, k, i) <==> BackwardClear(arch, decode, m0, target, cs[k].oldPos, cs[i].oldPos)
  {
    hide Layout, Shaped, OnGrid, Rewritten, DecoderSane, DistanceKept, InstrAt;
    LayoutIsShaped(arch, decode, m0, target, slot, cs);
    BackwardDistance(arch, decode, m0, target, slot, cs, k, i);
    if DistanceKept(cs, k, i) {
      forall o: nat | cs[k].oldPos <= o < cs[i].oldPos && OnGrid(decode, m0, target, o)
        ensures !Rewritten(arch, target, InstrAt(decode, m0, target, o), target + o)
      {
        var j := GridBetween(arch, decode, m0, target, slot, cs, k, i, o);
        StartOf(arch, decode, m0, target, slot, cs, j);
      }
    } else {
      var j :| k <= j < i && Rewritten(arch, target, cs[j].h, target + cs[j].oldPos);
      StartOf(arch, decode, m0, target, slot, cs, j);
      Ordered(cs, k, j);
      Ordered(cs, i, j);
    }
  }

  lemma GridBetween(arch: Arch, decode: Decoder, m0: Mem, target: nat, slot: nat, cs: seq<Copy>, k: nat, i: nat, o: nat)
    returns (j: nat)
    requires DecoderSane(arch, decode) && Layout(arch, decode, m0, target, slot, cs)
    requires k <= i < |cs| && cs[k].oldPos <= o < cs[i].oldPos && OnGrid(decode, m0, target, o)
    ensures k <= j < i && cs[j].oldPos == o
  {
    hide Layout, OnGrid, DecoderSane, Shaped;
    LayoutIsShaped(arch, decode, m0, target, slot, cs);
    Ordered(cs, i, |cs| - 1);
    GridCopied(arch, decode, m0, target, slot, cs, o);
    j :| j < |cs| && cs[j].oldPos == o;
    Ordered(cs, i, j);
    Ordered(cs, k, j);
  }

  /** Positions are ordered as their copies are. */
  lemma Ordered(cs: seq<Copy>, i: nat, j: nat)
    requires Shaped(cs) && i < |cs| && j < |cs|
    ensures i <= j <==> cs[i].oldPos <= cs[j].oldPos
    ensures cs[i].oldPos < cs[i].oldPos + cs[i].h.len
  {
    if i < j {
      Increasing(cs, i, j);
    } else if j < i {
      Increasing(cs, j, i);
    }
  }

  /**
   An internal branch goes to the copy of its destination if and only if it goes to an instruction,
   and backwards only over instructions that keep their form.
   */
  lemma JumpStaysExactly(arch: Arch, decode: Decoder, m0: Mem, target: nat, slot: nat, cs: seq<Copy>, i: nat)
    requires DecoderSane(arch, decode) && Layout(arch, decode, m0, target, slot, cs)
    requires i < |cs| && !Closing(cs[i])
    ensures BranchLands(arch, target, cs, i) <==> JumpStays(arch, decode, m0, target, cs[i].oldPos)
  {
    hide Layout, OnGrid, DecoderSane, DistanceKept, BackwardClear, Dest, Classify, Shaped, InstrAt;
    StartOf(arch, decode, m0, target, slot, cs, i);
    LayoutIsShaped(arch, decode, m0, target, slot, cs);
    if InternalBranch(arch, target, cs[i]) {
      var to := InternalDest(arch, target, cs[i]) - target;
      if k: nat :| k < |cs| && cs[k].oldPos == to {
        CopyOfDest(arch, decode, m0, target, slot, cs, i, k);
        forall j: nat | j < |cs| && cs[j].oldPos == to
          ensures j == k
        {
          Ordered(cs, j, k);
          Ordered(cs, k, j);
        }
      } else if OnGrid(decode, m0, target, to) {
        InternalDestCopied(arch, decode, m0, target, slot, cs, i);
      }
    }
  }

  lemma CopyOfDest(arch: Arch, decode: Decoder, m0: Mem, target: nat, slot: nat, cs: seq<Copy>, i: nat, k: nat)
    requires DecoderSane(arch, decode) && Layout(arch, decode, m0, target, slot, cs)
    requires i < |cs| && !Closing(cs[i]) && k < |cs|
    ensures OnGrid(decode, m0, target, cs[k].oldPos) && (k <= i <==> cs[k].oldPos <= cs[i].oldPos)
    ensures k <= i ==> (DistanceKept(cs, k, i) <==> BackwardClear(arch, decode, m0, target, cs[k].oldPos, cs[i].oldPos))
  {
    hide *;
    LayoutIsShaped(arch, decode, m0, target, slot, cs);
    StartOf(arch, decode, m0, target, slot, cs, k);
    Ordered(cs, k, i);
    if k <= i {
      DistanceIffClear(arch, decode, m0, target, slot, cs, k, i);
    }
  }

  /**
   An internal jump to a copied instruction lands on its copy if and only if it goes forwards, or
   backwards only over instructions that keep their form.
   */
  lemma InternalJumpExactly<D>(c: Machine<D>, m0: Mem, m: Mem, target: nat, slot: nat, cs: seq<Copy>, i: nat, k: nat)
    requires Built(c, m0, m, target, slot, cs) && JMP_REL <= slot && i < |cs| && k < |cs|
    requires InternalBranch(c.arch, target, cs[i]) && target + cs[k].oldPos == InternalDest(c.arch, target, cs[i])
    ensures Dest(c.arch, cs[i].h, slot + cs[i].newPos) == slot + cs[k].newPos <==>
              cs[i].oldPos < cs[k].oldPos || BackwardClear(c.arch, c.decode, m0, target, cs[k].oldPos, cs[i].oldPos)
  {
    hide Layout, OnGrid, DecoderLocal, DecoderRip, DecoderTemplates, DecoderSane, DistanceKept, BackwardClear, Dest,
         SlotHolds;
    InternalDestMoves(c, m0, m, target, slot, cs, i, k);
    CopyOfDest(c.arch, c.decode, m0, target, slot, cs, i, k);
  }

  // ---------- Operands ----------

  /** Displacements up to this size reach their operand from any slot that the allocator returns for the target. */
  const NEAR: int := 0x8000_0000 - MAX_MEMORY_RANGE - 64

  lemma OperandInReach(h: Hde, target: nat, slot: nat, o: nat, n: nat)
    requires SlotNear(X64, target, slot) && o < JMP_REL && n <= 50 && -NEAR <= Sext32(h.disp32) <= NEAR
    ensures FitsInt32(RipDelta(h, target + o, slot + n))
  {
  }

  /**
   In any slot of a block in reach, which is all that AllocateBuffer returns, the rewritten operand is the
   original one.
   */
  lemma OperandSurvives(h: Hde, target: nat, b: nat, slot: nat, o: nat, n: nat)
    requires IsSlot(X64, b, slot) && InReach(X64, target, b) && o < JMP_REL && n <= 50
    requires target + o < 0x8000_0000_0000_0000 && slot + n < 0x8000_0000_0000_0000
    requires h.len < WINDOW && h.disp32 < 0x1_0000_0000 && -NEAR <= Sext32(h.disp32) <= NEAR
    ensures RipAddress(X64, h.(disp32 := Trunc32(RipDelta(h, target + o, slot + n))), slot + n) ==
            RipAddress(X64, h, target + o)
  {
    hide RipAddress, RipDelta, FitsInt32;
    ReachedSlotNear(X64, target, b, slot);
    OperandInReach(h, target, slot, o, n);
    OperandKept(h, target + o, slot + n);
  }

  /** A slot of a page in reach of the target, not the page at 0. */
  predicate Offered(target: nat, b: nat, slot: nat) {
    0 < b && b % BLOCK == 0 && IsSlot(X64, b, slot) && InReach(X64, target, b)
  }

  /** The lowest and the highest of these pages. */
  function LowestBlock(target: nat): nat {
    if target <= MAX_MEMORY_RANGE + BLOCK then BLOCK
    else (target - MAX_MEMORY_RANGE + BLOCK - 1) / BLOCK * BLOCK
  }

  function HighestBlock(target: nat): nat {
    (target + MAX_MEMORY_RANGE - (BLOCK - 1)) / BLOCK * BLOCK
  }

  function LowestSlot(target: nat): nat {
    LowestBlock(target) + SlotSize(X64)
  }

  function HighestSlot(target: nat): nat {
    HighestBlock(target) + BLOCK - SlotSize(X64)
  }

  lemma Extremes(target: nat)
    ensures Offered(target, LowestBlock(target), LowestSlot(target))
    ensures Offered(target, HighestBlock(target), HighestSlot(target))
  {
    RoundedDown(target - MAX_MEMORY_RANGE + BLOCK - 1);
    RoundedDown(target + MAX_MEMORY_RANGE - (BLOCK - 1));
    CellsOf(LowestBlock(target));
    CellsOf(HighestBlock(target));
    hide OnCell;
  }

  lemma RoundedDown(x: int)
    ensures x / BLOCK * BLOCK % BLOCK == 0 && x - BLOCK < x / BLOCK * BLOCK <= x
  {
  }

  lemma CellsOf(b: nat)
    requires b % BLOCK == 0
    ensures OnCell(X64, b + SlotSize(X64)) && OnCell(X64, b + BLOCK - SlotSize(X64))
  {
    CellShift(b / BLOCK, 64);
    CellShift(b / BLOCK, BLOCK - 64);
  }

  lemma BetweenExtremes(target: nat, b: nat, slot: nat)
    requires Offered(target, b, slot)
    ensures LowestSlot(target) <= slot <= HighestSlot(target) <= target + MAX_MEMORY_RANGE
  {
    Multiples(b, LowestBlock(target), HighestBlock(target), target);
  }

  /** A page in reach lies between the two. */
  lemma Multiples(b: nat, lo: nat, hi: nat, target: nat)
    requires 0 < b && b % BLOCK == 0 && InReach(X64, target, b) && lo == LowestBlock(target) &&
             hi == HighestBlock(target)
    ensures lo <= b <= hi
  {
    assert b == b / BLOCK * BLOCK;
  }

  /** The rewritten operand addresses what the original one does. */
  predicate OperandStays(h: Hde, from: nat, to: nat) {
    RipAddress(X64, h.(disp32 := Trunc32(RipDelta(h, from, to))), to) == RipAddress(X64, h, from)
  }

  /**
   The exact bound: an operand is the original one in every slot that may be offered for the target if and only if
   it is in reach from the lowest and from the highest of them. Beyond it, one of these two loses it.
   */
  lemma OperandSafeExactly(h: Hde, target: nat, o: nat, n: nat)
    requires target < 0x4000_0000_0000_0000 && o < JMP_REL && n <= 50 && h.len < WINDOW && h.disp32 < 0x1_0000_0000
    ensures (forall b: nat, slot: nat :: Offered(target, b, slot) ==> OperandStays(h, target + o, slot + n)) <==>
            && target + o + Sext32(h.disp32) - (LowestSlot(target) + n) < 0x8000_0000
            && -0x8000_0000 <= target + o + Sext32(h.disp32) - (HighestSlot(target) + n)
  {
    hide Offered, LowestSlot, HighestSlot, RipAddress, Sext32, LowestBlock, HighestBlock;
    Extremes(target);
    var lo, hi := LowestSlot(target), HighestSlot(target);
    forall b: nat, slot: nat | Offered(target, b, slot)
      ensures lo <= slot <= hi <= target + MAX_MEMORY_RANGE
      ensures OperandStays(h, target + o, slot + n) <==> FitsInt32(RipDelta(h, target + o, slot + n))
    {
      BetweenExtremes(target, b, slot);
      OperandKept(h, target + o, slot + n);
    }
    assert Offered(target, LowestBlock(target), lo) && Offered(target, HighestBlock(target), hi);
  }

  /** A RIP-relative operand is near, and the pointer of an indirect jump or call is the same in both memories. */
  ghost predicate OperandNear(arch: Arch, decode: Decoder, m0: Mem, m: Mem, target: nat, off: nat) {
    var h := InstrAt(decode, m0, target, off);
    Classify(arch, h) == RipOperand ==>
      && -NEAR <= Sext32(h.disp32) <= NEAR
      && (RipTransfer(h) ==> Agree(m0, m, RipAddress(arch, h, target + off), 8))
  }

  // ---------- From the original code to the trampoline ----------

  /** Everything that makes the code movable, said of the code itself. */
  ghost predicate CodeMovable(arch: Arch, decode: Decoder, m0: Mem, m: Mem, target: nat)
    requires DecoderSane(arch, decode)
  {
    forall off: nat :: CopiedStart(arch, decode, m0, target, off) ==>
      JumpStays(arch, decode, m0, target, off) && OperandNear(arch, decode, m0, m, target, off)
  }

  /** Movable code gives copies that can all be faithful, wherever the allocator puts the slot. */
  lemma MovableFromCode(arch: Arch, decode: Decoder, m0: Mem, m: Mem, target: nat, slot: nat, cs: seq<Copy>, i: nat)
    requires DecoderSane(arch, decode) && Layout(arch, decode, m0, target, slot, cs)
    requires SourceEnd(cs) == CodeLength(arch, decode, m0, target, 0, 0) && SlotNear(arch, target, slot)
    requires CodeMovable(arch, decode, m0, m, target)
    requires i < |cs| && !Closing(cs[i])
    ensures Movable(arch, m0, m, target, slot, cs, i)
  {
    hide Layout, OnGrid, DecoderSane, BranchLands, JumpStays, CodeLength, Sext32, Shaped, InstrAt, SourceEnd, SlotNear,
      RipAddress, RipDelta, Classify, RipTransfer, FitsInt32;
    StartOf(arch, decode, m0, target, slot, cs, i);
    CopyFits(arch, decode, m0, target, slot, cs, i);
    JumpStaysExactly(arch, decode, m0, target, slot, cs, i);
    assert CopiedStart(arch, decode, m0, target, cs[i].oldPos);
    if Classify(arch, cs[i].h) == RipOperand {
      RipIsX64(arch, cs[i].h);
      OperandInReach(cs[i].h, target, slot, cs[i].oldPos, cs[i].newPos);
    }
  }

  lemma RipIsX64(arch: Arch, h: Hde)
    requires Classify(arch, h) == RipOperand
    ensures arch == X64
  {
  }

  lemma CopyFits(arch: Arch, decode: Decoder, m0: Mem, target: nat, slot: nat, cs: seq<Copy>, i: nat)
    requires DecoderSane(arch, decode) && Layout(arch, decode, m0, target, slot, cs) && i < |cs|
    ensures cs[i].oldPos < SourceEnd(cs) && cs[i].newPos <= 50
  {
    hide Layout, DecoderSane, Shaped;
    BoundariesFit(arch, decode, m0, target, slot, cs);
    LayoutIsShaped(arch, decode, m0, target, slot, cs);
    Ordered(cs, i, |cs| - 1);
    Ordered(cs, |cs| - 1, i);
  }
}
