/**
 What a trampoline is: the instruction templates, the translation of one instruction, and the
 layout of a finished trampoline as a chain of copies of the target's first instructions.
 */
module TrampolineSpec {
  import opened Bytes
  import opened Cpu

  /** sizeof(JMP_REL), the long jump written over the target. */
  const JMP_REL: nat := 5
  /** sizeof(JMP_REL_SHORT), the short jump into the hot-patch area. */
  const JMP_REL_SHORT: nat := 2
  /** ARRAYSIZE of the boundary tables. */
  const MAX_IPS: nat := 8

  function SlotSize(arch: Arch): nat {
    if arch == X64 then 64 else 32
  }

  function JmpSize(arch: Arch): nat {
    if arch == X64 then 14 else 5
  }

  function TrampolineMaxSize(arch: Arch): nat {
    if arch == X64 then 50 else 32
  }

  /** JMP at address `at`; absolute through a literal on x64, rel32 on x86. */
  function JmpCode(arch: Arch, at: int, dest: nat): seq<Byte> {
    if arch == X64 then [0xFF, 0x25, 0, 0, 0, 0] + LE(8, dest)
    else [0xE9] + LE(4, Trunc32(dest - (at + 5)))
  }

  function CallCode(arch: Arch, at: int, dest: nat): seq<Byte> {
    if arch == X64 then [0xFF, 0x15, 2, 0, 0, 0, 0xEB, 8] + LE(8, dest)
    else [0xE8] + LE(4, Trunc32(dest - (at + 5)))
  }

  /** The condition code that holds exactly when cond does not. */
  function Negated(cond: nat): nat {
    if cond % 2 == 0 then cond + 1 else cond - 1
  }

  /** x64 has no absolute conditional jump: the inverted short jump skips an absolute one. */
  function JccCode(arch: Arch, at: int, cond: nat, dest: nat): seq<Byte>
    requires cond < 16
  {
    if arch == X64 then [0x70 + Negated(cond), 0x0E, 0xFF, 0x25, 0, 0, 0, 0] + LE(8, dest)
    else [0x0F, 0x80 + cond] + LE(4, Trunc32(dest - (at + 6)))
  }

  /** The first five bytes of the target, where a copied jump keeps its displacement. */
  predicate Internal(target: nat, dest: int) {
    target <= dest < target + JMP_REL
  }

  /**
   The code for one instruction of the target, read as src at `from`, to be placed at `to`; None if it cannot
   be moved.
   */
  function Translate(arch: Arch, target: nat, h: Hde, src: seq<Byte>, from: int, to: int): Option<seq<Byte>> {
    var c := Classify(arch, h);
    if c == RipOperand then
      var f := RipField(h);
      if 0 <= f && f + 4 <= |src| then
        Some(src[..f] + LE(4, Trunc32(from + h.len + Sext32(h.disp32) - (to + h.len))) + src[f + 4..])
      else None
    else if c == CallRel then Some(CallCode(arch, to, Dest(arch, h, from)))
    else if !IsBranch(c) || Internal(target, Dest(arch, h, from)) then Some(src)
    else if c == LoopShort then None
    else if c == JmpNear || c == JmpShort then Some(JmpCode(arch, to, Dest(arch, h, from)))
    else Some(JccCode(arch, to, Cond(h), Dest(arch, h, from)))
  }

  /** One boundary: the instruction h at target + oldPos was given `code` at slot + newPos. */
  datatype Copy = Copy(oldPos: nat, newPos: nat, h: Hde, code: seq<Byte>)

  /** From five bytes on, the trampoline ends with a jump back instead of a copy. */
  predicate Closing(c: Copy) {
    c.oldPos >= JMP_REL
  }

  predicate CopyOk(arch: Arch, decode: Decoder, m: Mem, target: nat, slot: nat, c: Copy) {
    && c.h == decode(Read(m, target + c.oldPos, WINDOW))
    && !c.h.error
    && if Closing(c) then c.code == JmpCode(arch, slot + c.newPos, target + c.oldPos)
       else
         Translate(arch, target, c.h, Read(m, target + c.oldPos, c.h.len), target + c.oldPos, slot + c.newPos) ==
         Some(c.code)
  }

  /** A copied branch that stays within the first five bytes. */
  predicate InternalBranch(arch: Arch, target: nat, c: Copy) {
    !Closing(c) && IsBranch(Classify(arch, c.h)) && Internal(target, Dest(arch, c.h, target + c.oldPos))
  }

  /** Copies follow each other without gaps, in the target and in the slot. */
  predicate Chained(cs: seq<Copy>) {
    && (cs != [] ==> cs[0].oldPos == 0 && cs[0].newPos == 0)
    && (forall i :: 0 <= i < |cs| - 1 ==> Follows(cs[i], cs[i + 1]))
  }

  predicate Follows(c: Copy, next: Copy) {
    !Closing(c) && next.oldPos == c.oldPos + c.h.len && next.newPos == c.newPos + |c.code|
  }

  /** Where an internal branch goes, 0 for any other instruction. */
  function InternalDest(arch: Arch, target: nat, c: Copy): nat {
    if InternalBranch(arch, target, c) then Dest(arch, c.h, target + c.oldPos) else 0
  }

  /** No instruction jumped over by an internal branch changes its length. */
  predicate BranchesKeepDistance(arch: Arch, target: nat, cs: seq<Copy>) {
    forall i, j :: 0 <= j <= i < |cs| && target + cs[i].oldPos < InternalDest(arch, target, cs[j])
                   ==> |cs[i].code| == cs[i].h.len
  }

  predicate RipJump(arch: Arch, h: Hde) {
    Classify(arch, h) == RipOperand && h.opcode == 0xFF && RegField(h) == 4
  }

  /**
   The last copy never falls through: a jump back, an indirect jump, or a jump or return that no internal
   branch skips.
   */
  predicate Ends(arch: Arch, target: nat, cs: seq<Copy>)
    requires cs != []
  {
    var c := cs[|cs| - 1];
    var k := Classify(arch, c.h);
    || Closing(c)
    || RipJump(arch, c.h)
    || (&& (k == Ret || ((k == JmpNear || k == JmpShort) && !InternalBranch(arch, target, c)))
        && forall j :: 0 <= j < |cs| ==> InternalDest(arch, target, cs[j]) <= target + c.oldPos)
  }

  function CodeEnd(cs: seq<Copy>): nat
    requires cs != []
  {
    cs[|cs| - 1].newPos + |cs[|cs| - 1].code|
  }

  function SourceEnd(cs: seq<Copy>): nat
    requires cs != []
  {
    cs[|cs| - 1].oldPos + cs[|cs| - 1].h.len
  }

  /** cs is a complete relocation, into slot, of the code that m holds at target. */
  ghost predicate Layout(arch: Arch, decode: Decoder, m: Mem, target: nat, slot: nat, cs: seq<Copy>) {
    && cs != []
    && (forall i :: 0 <= i < |cs| ==> CopyOk(arch, decode, m, target, slot, cs[i]))
    && Chained(cs)
    && BranchesKeepDistance(arch, target, cs)
    && Ends(arch, target, cs)
    && CodeEnd(cs) <= TrampolineMaxSize(arch)
  }

  /** The slot holds the code of every copy. */
  ghost predicate SlotHolds(m: Mem, slot: nat, cs: seq<Copy>) {
    forall i :: 0 <= i < |cs| ==> Read(m, slot + cs[i].newPos, |cs[i].code|) == cs[i].code
  }

  /** A run of equal filler bytes 00, 90 or CC. */
  predicate IsPadding(m: Mem, a: int, n: nat) {
    (m(a) == 0x00 || m(a) == 0x90 || m(a) == 0xCC) && forall x :: a < x < a + n ==> m(x) == m(a)
  }

  // ---------- Consequences of the layout ----------

  /** The numbers of a layout, without the code. */
  ghost predicate Shaped(cs: seq<Copy>) {
    && Chained(cs)
    && forall i :: 0 <= i < |cs| ==> 1 <= cs[i].h.len <= 15 && 1 <= |cs[i].code|
  }

  lemma CopyLength(arch: Arch, decode: Decoder, m: Mem, target: nat, slot: nat, c: Copy)
    requires DecoderSane(arch, decode) && CopyOk(arch, decode, m, target, slot, c)
    ensures 1 <= c.h.len <= 15 && 1 <= |c.code|
  {
  }

  lemma LayoutIsShaped(arch: Arch, decode: Decoder, m: Mem, target: nat, slot: nat, cs: seq<Copy>)
    requires DecoderSane(arch, decode) && Layout(arch, decode, m, target, slot, cs)
    ensures Shaped(cs)
  {
    forall i | 0 <= i < |cs|
      ensures 1 <= cs[i].h.len <= 15 && 1 <= |cs[i].code|
    {
      CopyLength(arch, decode, m, target, slot, cs[i]);
    }
  }

  lemma {:induction false} Increasing(cs: seq<Copy>, i: nat, j: nat)
    requires Shaped(cs)
    requires i < j < |cs|
    ensures cs[i].oldPos + cs[i].h.len <= cs[j].oldPos && cs[i].newPos + |cs[i].code| <= cs[j].newPos
    ensures j <= cs[j].oldPos && !Closing(cs[i])
    decreases j
  {
    assert Follows(cs[j - 1], cs[j]);
    if i < j - 1 {
      Increasing(cs, i, j - 1);
    } else if i > 0 {
      Increasing(cs, i - 1, i);
    }
  }

  /** At most six boundaries, each within a byte: the eight-entry tables and the 3-bit count never overflow. */
  lemma BoundariesFit(arch: Arch, decode: Decoder, m: Mem, target: nat, slot: nat, cs: seq<Copy>)
    requires DecoderSane(arch, decode) && Layout(arch, decode, m, target, slot, cs)
    ensures 1 <= |cs| <= 6
    ensures SourceEnd(cs) <= 34
    ensures forall i :: 0 <= i < |cs| ==> cs[i].oldPos <= 19 && cs[i].newPos + |cs[i].code| <= TrampolineMaxSize(arch)
  {
    LayoutIsShaped(arch, decode, m, target, slot, cs);
    ShapeFits(cs);
  }

  lemma ShapeFits(cs: seq<Copy>)
    requires cs != [] && Shaped(cs)
    ensures 1 <= |cs| <= 6
    ensures SourceEnd(cs) <= 34
    ensures forall i :: 0 <= i < |cs| ==> cs[i].oldPos <= 19 && cs[i].newPos + |cs[i].code| <= CodeEnd(cs)
  {
    var n := |cs|;
    if n >= 2 {
      Increasing(cs, n - 2, n - 1);
      assert Follows(cs[n - 2], cs[n - 1]);
      if n >= 3 {
        Increasing(cs, n - 3, n - 2);
      }
    }
    forall i | 0 <= i < n
      ensures cs[i].oldPos <= 19 && cs[i].newPos + |cs[i].code| <= CodeEnd(cs)
    {
      if i < n - 1 {
        Increasing(cs, i, n - 1);
      }
    }
  }

  // ---------- The relocation as a function ----------

  function NextOld(cs: seq<Copy>): nat {
    if cs == [] then 0 else SourceEnd(cs)
  }

  function NextNew(cs: seq<Copy>): nat {
    if cs == [] then 0 else CodeEnd(cs)
  }

  /** The farthest destination of the internal branches copied so far, 0 if there are none. */
  function FarthestInternal(arch: Arch, target: nat, cs: seq<Copy>): nat {
    if cs == [] then 0
    else
      var d := InternalDest(arch, target, cs[|cs| - 1]);
      var before := FarthestInternal(arch, target, cs[..|cs| - 1]);
      if before < d then d else before
  }

  /**
   Does the copy of instruction h at target + o complete the trampoline, farthest being the farthest internal
   destination?
   */
  predicate Finishes(arch: Arch, target: nat, h: Hde, o: nat, farthest: nat) {
    var k := Classify(arch, h);
    || o >= JMP_REL
    || RipJump(arch, h)
    || ((k == JmpNear || k == JmpShort) && !Internal(target, Dest(arch, h, target + o)) && farthest <= target + o)
    || (k == Ret && farthest <= target + o)
  }

  /** The code for the boundary at target + o: a jump back or the translated instruction. */
  function CodeAt(arch: Arch, target: nat, slot: nat, m: Mem, h: Hde, o: nat, n: nat): Option<seq<Byte>> {
    if o >= JMP_REL then Some(JmpCode(arch, slot + n, target + o))
    else Translate(arch, target, h, Read(m, target + o, h.len), target + o, slot + n)
  }

  /** The boundary that follows cs, if its instruction can be moved and fits. */
  function NextCopy(arch: Arch, decode: Decoder, m: Mem, target: nat, slot: nat, cs: seq<Copy>): Option<Copy> {
    var o, n := NextOld(cs), NextNew(cs);
    var h := decode(Read(m, target + o, WINDOW));
    var code := CodeAt(arch, target, slot, m, h, o, n);
    if h.error || code == None then None
    else
      var c := Copy(o, n, h, code.value);
      if target + o < FarthestInternal(arch, target, cs + [c]) && |c.code| != h.len then None
      else if n + |c.code| > TrampolineMaxSize(arch) || |cs| >= MAX_IPS then None
      else Some(c)
  }

  /** Continues a relocation whose first boundaries are cs; None if the code cannot be moved. */
  function Relocate(arch: Arch, decode: Decoder, m: Mem, target: nat, slot: nat, cs: seq<Copy>): Option<seq<Copy>>
    requires DecoderSane(arch, decode)
    decreases if NextOld(cs) < JMP_REL then JMP_REL - NextOld(cs) else 0
  {
    match NextCopy(arch, decode, m, target, slot, cs)
    case None => None
    case Some(c) =>
      if Finishes(arch, target, c.h, c.oldPos, FarthestInternal(arch, target, cs + [c])) then Some(cs + [c])
      else Relocate(arch, decode, m, target, slot, cs + [c])
  }

  lemma {:induction false} FarthestIsFarthest(arch: Arch, target: nat, cs: seq<Copy>, j: nat)
    requires j < |cs|
    ensures InternalDest(arch, target, cs[j]) <= FarthestInternal(arch, target, cs)
  {
    if j < |cs| - 1 {
      FarthestIsFarthest(arch, target, cs[..|cs| - 1], j);
    }
  }

  lemma DistanceExtends(arch: Arch, target: nat, cs: seq<Copy>, c: Copy)
    requires BranchesKeepDistance(arch, target, cs)
    requires FarthestInternal(arch, target, cs + [c]) <= target + c.oldPos || |c.code| == c.h.len
    requires forall i :: 0 <= i < |cs| ==> InternalDest(arch, target, cs[i]) <= FarthestInternal(arch, target, cs + [c])
    requires InternalDest(arch, target, c) <= FarthestInternal(arch, target, cs + [c])
    ensures BranchesKeepDistance(arch, target, cs + [c])
  {
  }

  lemma ChainExtends(cs: seq<Copy>, c: Copy)
    requires Chained(cs) && (cs != [] ==> !Closing(cs[|cs| - 1]))
    requires c.oldPos == NextOld(cs) && c.newPos == NextNew(cs)
    ensures Chained(cs + [c])
  {
    assert forall i :: 0 <= i < |cs| - 1 ==> Follows(cs[i], cs[i + 1]);
  }

  /** The facts about a prefix of copies, finished or not. */
  ghost predicate Prefix(arch: Arch, decode: Decoder, m: Mem, target: nat, slot: nat, cs: seq<Copy>) {
    && (forall i :: 0 <= i < |cs| ==> CopyOk(arch, decode, m, target, slot, cs[i]))
    && Chained(cs)
    && BranchesKeepDistance(arch, target, cs)
  }

  lemma AllReached(arch: Arch, target: nat, cs: seq<Copy>)
    ensures forall i :: 0 <= i < |cs| ==> InternalDest(arch, target, cs[i]) <= FarthestInternal(arch, target, cs)
  {
    hide InternalDest, FarthestInternal;
    forall i | 0 <= i < |cs|
      ensures InternalDest(arch, target, cs[i]) <= FarthestInternal(arch, target, cs)
    {
      FarthestIsFarthest(arch, target, cs, i);
    }
  }

  lemma DistancesExtend(arch: Arch, target: nat, cs: seq<Copy>, c: Copy)
    requires BranchesKeepDistance(arch, target, cs)
    requires FarthestInternal(arch, target, cs + [c]) <= target + c.oldPos || |c.code| == c.h.len
    ensures BranchesKeepDistance(arch, target, cs + [c])
  {
    hide BranchesKeepDistance, InternalDest, FarthestInternal;
    AllReached(arch, target, cs + [c]);
    forall i | 0 <= i < |cs|
      ensures InternalDest(arch, target, cs[i]) <= FarthestInternal(arch, target, cs + [c])
    {
      assert (cs + [c])[i] == cs[i];
    }
    assert (cs + [c])[|cs|] == c;
    DistanceExtends(arch, target, cs, c);
  }

  lemma PrefixExtends(arch: Arch, decode: Decoder, m: Mem, target: nat, slot: nat, cs: seq<Copy>, c: Copy)
    requires Prefix(arch, decode, m, target, slot, cs) && (cs != [] ==> !Closing(cs[|cs| - 1]))
    requires CopyOk(arch, decode, m, target, slot, c)
    requires c.oldPos == NextOld(cs) && c.newPos == NextNew(cs)
    requires FarthestInternal(arch, target, cs + [c]) <= target + c.oldPos || |c.code| == c.h.len
    ensures Prefix(arch, decode, m, target, slot, cs + [c])
  {
    hide CopyOk, Chained, Closing, FarthestInternal, BranchesKeepDistance;
    ChainExtends(cs, c);
    DistancesExtend(arch, target, cs, c);
    assert forall i :: 0 <= i < |cs| ==> (cs + [c])[i] == cs[i];
  }

  lemma FinishedEnds(arch: Arch, target: nat, cs: seq<Copy>)
    requires cs != []
    requires var c := cs[|cs| - 1]; Finishes(arch, target, c.h, c.oldPos, FarthestInternal(arch, target, cs))
    ensures Ends(arch, target, cs)
  {
    forall j | 0 <= j < |cs|
      ensures InternalDest(arch, target, cs[j]) <= FarthestInternal(arch, target, cs)
    {
      FarthestIsFarthest(arch, target, cs, j);
    }
  }

  lemma NextCopyExtends(arch: Arch, decode: Decoder, m: Mem, target: nat, slot: nat, cs: seq<Copy>)
    requires Prefix(arch, decode, m, target, slot, cs) && (cs != [] ==> !Closing(cs[|cs| - 1]))
    requires NextCopy(arch, decode, m, target, slot, cs).Some?
    ensures var c := NextCopy(arch, decode, m, target, slot, cs).value;
            && Prefix(arch, decode, m, target, slot, cs + [c])
            && c.oldPos == NextOld(cs)
            && CodeEnd(cs + [c]) <= TrampolineMaxSize(arch)
  {
    hide InternalDest, FarthestInternal, BranchesKeepDistance, Chained, Prefix;
    PrefixExtends(arch, decode, m, target, slot, cs, NextCopy(arch, decode, m, target, slot, cs).value);
  }

  /** One round of the relocation. */
  lemma RelocateRound(arch: Arch, decode: Decoder, m: Mem, target: nat, slot: nat, cs: seq<Copy>)
    requires DecoderSane(arch, decode)
    ensures var next := NextCopy(arch, decode, m, target, slot, cs);
            if next.None? then Relocate(arch, decode, m, target, slot, cs).None?
            else
              var c := next.value;
              && c.oldPos == NextOld(cs) < NextOld(cs + [c])
              && if Finishes(arch, target, c.h, c.oldPos, FarthestInternal(arch, target, cs + [c])) then
                   Relocate(arch, decode, m, target, slot, cs) == Some(cs + [c])
                 else
                   && Relocate(arch, decode, m, target, slot, cs) == Relocate(arch, decode, m, target, slot, cs + [c])
                   && !Closing(c) && c.oldPos < JMP_REL
  {
    hide FarthestInternal, InternalDest, Translate;
  }

  lemma FinishedLayout(arch: Arch, decode: Decoder, m: Mem, target: nat, slot: nat, cs: seq<Copy>)
    requires Prefix(arch, decode, m, target, slot, cs) && cs != [] && CodeEnd(cs) <= TrampolineMaxSize(arch)
    requires var c := cs[|cs| - 1]; Finishes(arch, target, c.h, c.oldPos, FarthestInternal(arch, target, cs))
    ensures Layout(arch, decode, m, target, slot, cs)
  {
    FinishedEnds(arch, target, cs);
    hide CopyOk, Chained, BranchesKeepDistance, Ends, FarthestInternal, Finishes;
  }

  /** Whatever the relocation yields is a complete layout. */
  lemma {:induction false} RelocateGivesLayout(arch: Arch, decode: Decoder, m: Mem, target: nat, slot: nat,
                                               cs: seq<Copy>)
    requires DecoderSane(arch, decode)
    requires Prefix(arch, decode, m, target, slot, cs) && (cs != [] ==> !Closing(cs[|cs| - 1]))
    ensures var r := Relocate(arch, decode, m, target, slot, cs);
            r.Some? ==> Layout(arch, decode, m, target, slot, r.value)
    decreases if NextOld(cs) < JMP_REL then JMP_REL - NextOld(cs) else 0
  {
    hide *;
    var next := NextCopy(arch, decode, m, target, slot, cs);
    RelocateRound(arch, decode, m, target, slot, cs);
    if next.Some? {
      var c := next.value;
      NextCopyExtends(arch, decode, m, target, slot, cs);
      assert (cs + [c])[|cs|] == c;
      if Finishes(arch, target, c.h, c.oldPos, FarthestInternal(arch, target, cs + [c])) {
        FinishedLayout(arch, decode, m, target, slot, cs + [c]);
      } else {
        RelocateGivesLayout(arch, decode, m, target, slot, cs + [c]);
      }
    }
  }

  // ---------- Room for the patch ----------

  /** n bytes from offset `from` of the target are free for the patch: copied, or padding. */
  predicate Room(m: Mem, target: nat, from: nat, n: nat) {
    from >= n || IsPadding(m, target + from, n - from)
  }

  predicate RoomAbove(m: Mem, executable: int -> bool, target: nat) {
    executable(target - JMP_REL) && IsPadding(m, target - JMP_REL, JMP_REL)
  }

  /** Either a long jump fits on the target, or a short one with the long jump above it. */
  predicate Patchable(m: Mem, executable: int -> bool, target: nat, cs: seq<Copy>)
    requires cs != []
  {
    || Room(m, target, SourceEnd(cs), JMP_REL)
    || (Room(m, target, SourceEnd(cs), JMP_REL_SHORT) && RoomAbove(m, executable, target))
  }

  function PatchStart(target: nat, above: bool): int {
    if above then target - JMP_REL else target
  }

  function PatchSize(above: bool): nat {
    if above then JMP_REL + JMP_REL_SHORT else JMP_REL
  }

  /** x lies in an instruction that the trampoline replaces. */
  ghost predicate Copied(target: nat, cs: seq<Copy>, x: int) {
    exists i :: 0 <= i < |cs| && !Closing(cs[i]) && target + cs[i].oldPos <= x < target + cs[i].oldPos + cs[i].h.len
  }

  lemma {:induction false} CopiedUpTo(arch: Arch, decode: Decoder, m: Mem, target: nat, slot: nat, cs: seq<Copy>,
                                      i: nat, x: int)
    requires Layout(arch, decode, m, target, slot, cs)
    requires i < |cs| && !Closing(cs[i])
    requires target <= x < target + cs[i].oldPos + cs[i].h.len
    ensures Copied(target, cs, x)
  {
    if x < target + cs[i].oldPos {
      assert Follows(cs[i - 1], cs[i]);
      CopiedUpTo(arch, decode, m, target, slot, cs, i - 1, x);
    }
  }

  /** x lies in a run of one byte, 00, 90 or CC, between lo and hi. */
  ghost predicate InPadding(m: Mem, lo: int, hi: int, x: int) {
    && (m(x) == 0x00 || m(x) == 0x90 || m(x) == 0xCC)
    && exists a, n: nat :: lo <= a <= x < a + n <= hi && SameBytes(m, a, n, x)
  }

  /** The n bytes from a on are all equal to the one at x. */
  ghost predicate SameBytes(m: Mem, a: int, n: nat, x: int) {
    forall y :: a <= y < a + n ==> m(y) == m(x)
  }

  /** Patch safety: every byte the patch overwrites belongs to a copied instruction or to padding. */
  lemma PatchIsSafe(arch: Arch, decode: Decoder, m: Mem, executable: int -> bool, target: nat, slot: nat, cs: seq<Copy>,
                    x: int)
    requires DecoderSane(arch, decode)
    requires Layout(arch, decode, m, target, slot, cs) && Patchable(m, executable, target, cs)
    requires var above := !Room(m, target, SourceEnd(cs), JMP_REL);
             PatchStart(target, above) <= x < PatchStart(target, above) + PatchSize(above)
    ensures var lo := PatchStart(target, !Room(m, target, SourceEnd(cs), JMP_REL));
            var hi := lo + PatchSize(!Room(m, target, SourceEnd(cs), JMP_REL));
            Copied(target, cs, x) || InPadding(m, lo, hi, x)
    ensures Copied(target, cs, x) || m(x) == 0x00 || m(x) == 0x90 || m(x) == 0xCC
  {
    hide CopyOk, BranchesKeepDistance, Ends, DecoderSane;
    var e := SourceEnd(cs);
    var last := |cs| - 1;
    var above := !Room(m, target, e, JMP_REL);
    if x < target {
      assert SameBytes(m, target - JMP_REL, JMP_REL, x);
    } else if x < target + e {
      if Closing(cs[last]) {
        assert last > 0 && Follows(cs[last - 1], cs[last]);
        CopiedUpTo(arch, decode, m, target, slot, cs, last - 1, x);
      } else {
        CopiedUpTo(arch, decode, m, target, slot, cs, last, x);
      }
    } else {
      var n := PatchStart(target, above) + PatchSize(above) - (target + e);
      assert IsPadding(m, target + e, n);
      assert SameBytes(m, target + e, n, x);
    }
  }
}
