/** trampoline.c: building a trampoline in a slot. */
module TrampolineBuilder {
  import opened Bytes
  import opened Cpu
  import opened ProcessState
  import opened TrampolineSpec

  /** TRAMPOLINE: the request and, once built, the result. */
  class Trampoline {
    const pTarget: nat
    const pDetour: nat
    const pTrampoline: nat
    var pRelay: nat
    var patchAbove: bool
    var nIP: nat
    const oldIPs: array<Byte>
    const newIPs: array<Byte>

    constructor (pTarget: nat, pDetour: nat, pTrampoline: nat)
      ensures this.pTarget == pTarget && this.pDetour == pDetour && this.pTrampoline == pTrampoline
      ensures Valid() && fresh(oldIPs) && fresh(newIPs)
    {
      this.pTarget, this.pDetour, this.pTrampoline := pTarget, pDetour, pTrampoline;
      pRelay, patchAbove, nIP := 0, false, 0;
      oldIPs, newIPs := new Byte[MAX_IPS], new Byte[MAX_IPS];
    }

    ghost predicate Valid() {
      oldIPs.Length == MAX_IPS && newIPs.Length == MAX_IPS && oldIPs != newIPs
    }

    /** Appends a boundary to the tables. */
    method Record(oldPos: nat, newPos: nat, ghost h: Hde, ghost code: seq<Byte>, ghost cs: seq<Copy>)
      requires Valid() && Lists(cs) && |cs| < MAX_IPS && oldPos < 0x100 && newPos < 0x100
      modifies this`nIP, oldIPs, newIPs
      ensures Lists(cs + [Copy(oldPos, newPos, h, code)])
    {
      oldIPs[nIP], newIPs[nIP] := oldPos, newPos;
      nIP := nIP + 1;
    }

    /** The boundary tables list exactly the boundaries of cs. */
    ghost predicate Lists(cs: seq<Copy>)
      requires Valid()
      reads this, oldIPs, newIPs
    {
      && nIP == |cs| <= MAX_IPS
      && forall i :: 0 <= i < nIP ==> oldIPs[i] == cs[i].oldPos && newIPs[i] == cs[i].newPos
    }
  }

  method IsCodePadding(m: Mem, pInst: int, size: nat) returns (r: bool)
    ensures r <==> IsPadding(m, pInst, size)
    ensures r <==> (m(pInst) == 0x00 || m(pInst) == 0x90 || m(pInst) == 0xCC)
                   && forall x :: pInst <= x < pInst + size ==> m(x) == m(pInst)
  {
    if m(pInst) != 0x00 && m(pInst) != 0x90 && m(pInst) != 0xCC {
      return false;
    }
    var i := 1;
    while i < size
      invariant 1 <= i
      invariant forall x :: pInst < x < pInst + i && x < pInst + size ==> m(x) == m(pInst)
    {
      if m(pInst + i) != m(pInst) {
        return false;
      }
      i := i + 1;
    }
    return true;
  }

  /** Bytes around the target that the builder reads: the hot-patch area and the first instructions. */
  const READ_AHEAD: nat := 40

  ghost predicate Apart(target: int, slot: int, size: int) {
    target + READ_AHEAD <= slot || slot + size <= target - JMP_REL
  }

  ghost predicate Translated(arch: Arch, target: nat, oldPos: nat, newPos: nat, h: Hde, jmpDestBefore: nat,
                             code: seq<Byte>, jmpDest: nat, finished: bool)
  {
    var d := InternalDest(arch, target, Copy(oldPos, newPos, h, code));
    jmpDest == (if jmpDestBefore < d then d else jmpDestBefore) &&
      finished == Finishes(arch, target, h, oldPos, jmpDest)
  }

  /** Direct relative JMP, E9 or EB. */
  method TranslateJmp(arch: Arch, target: nat, slot: nat, oldPos: nat, newPos: nat, h: Hde, src: seq<Byte>,
                      jmpDestBefore: nat)
    returns (code: seq<Byte>, jmpDest: nat, finished: bool)
    requires oldPos < JMP_REL && (Classify(arch, h) == JmpNear || Classify(arch, h) == JmpShort)
    ensures Translate(arch, target, h, src, target + oldPos, slot + newPos) == Some(code)
    ensures Translated(arch, target, oldPos, newPos, h, jmpDestBefore, code, jmpDest, finished)
  {
    hide Wrap, JmpCode, Sext8, Sext32, RipField;
    var pOldInst, pNewInst := target + oldPos, slot + newPos;
    code, jmpDest, finished := src, jmpDestBefore, false;
    var dest := Wrap(arch, pOldInst + h.len + (if h.opcode == 0xEB then Sext8(h.imm8) else Sext32(h.imm32)));
    assert dest == Dest(arch, h, pOldInst);
    if target <= dest && dest < target + JMP_REL {
      // Stays within the bytes to be replaced: copied as it is.
      if jmpDest < dest {
        jmpDest := dest;
      }
    } else {
      code := JmpCode(arch, pNewInst, dest);
      // Nothing behind an unconditional jump runs, unless an earlier branch goes there.
      finished := pOldInst >= jmpDest;
    }
  }

  /** Direct relative Jcc, and LOOPNZ/LOOPZ/LOOP/JCXZ. */
  method TranslateJcc(arch: Arch, target: nat, slot: nat, oldPos: nat, newPos: nat, h: Hde, src: seq<Byte>,
                      jmpDestBefore: nat)
    returns (ok: bool, code: seq<Byte>, jmpDest: nat)
    requires oldPos < JMP_REL
    requires var k := Classify(arch, h); k == JccShort || k == JccNear || k == LoopShort
    ensures Translate(arch, target, h, src, target + oldPos, slot + newPos) == if ok then Some(code) else None
    ensures ok ==> Translated(arch, target, oldPos, newPos, h, jmpDestBefore, code, jmpDest, false)
  {
    hide Wrap, JccCode, Sext8, Sext32, RipField;
    var pOldInst, pNewInst := target + oldPos, slot + newPos;
    ok, code, jmpDest := true, src, jmpDestBefore;
    var short := 0x70 <= h.opcode <= 0x7F || 0xE0 <= h.opcode <= 0xE3;
    var dest := Wrap(arch, pOldInst + h.len + (if short then Sext8(h.imm8) else Sext32(h.imm32)));
    assert dest == Dest(arch, h, pOldInst);
    if target <= dest && dest < target + JMP_REL {
      if jmpDest < dest {
        jmpDest := dest;
      }
    } else if 0xE0 <= h.opcode <= 0xE3 {
      // LOOP and JCXZ have no near form.
      ok := false;
    } else {
      code := JccCode(arch, pNewInst, (if h.opcode != 0x0F then h.opcode else h.opcode2) % 16, dest);
    }
  }

  /**
   The code for one instruction, where its internal jump goes, and whether it completes the
   trampoline. The masked tests of the opcode bytes are written as the ranges they select.
   */
  method TranslateOne(arch: Arch, target: nat, slot: nat, oldPos: nat, newPos: nat, h: Hde, src: seq<Byte>,
                      jmpDestBefore: nat)
    returns (ok: bool, code: seq<Byte>, jmpDest: nat, finished: bool)
    requires oldPos < JMP_REL && |src| == h.len
    requires h.opcode2 != 0 ==> h.opcode == 0x0F
    requires IsRip(arch, h) ==> h.immLen + 6 <= h.len
    ensures Translate(arch, target, h, src, target + oldPos, slot + newPos) == if ok then Some(code) else None
    ensures ok ==> Translated(arch, target, oldPos, newPos, h, jmpDestBefore, code, jmpDest, finished)
  {
    hide Wrap, JmpCode, JccCode, CallCode, Sext8, Sext32, LE, Trunc32;
    var pOldInst, pNewInst := target + oldPos, slot + newPos;
    ok, code, jmpDest, finished := true, src, jmpDestBefore, false;
    if IsRip(arch, h) {
      // modrm & 0xC7 == 0x05: adjust the displacement.
      var f := h.len - h.immLen - 4;
      code := src[..f] + LE(4, Trunc32((pOldInst + h.len + Sext32(h.disp32)) - (pNewInst + h.len))) + src[f + 4..];
      // FF /4 is an indirect jump: control does not come past it.
      finished := h.opcode == 0xFF && RegField(h) == 4;
    } else if h.opcode == 0xE8 {
      code := CallCode(arch, pNewInst, Wrap(arch, pOldInst + h.len + Sext32(h.imm32)));
    } else if h.opcode == 0xE9 || h.opcode == 0xEB {
      code, jmpDest, finished := TranslateJmp(arch, target, slot, oldPos, newPos, h, src, jmpDestBefore);
    } else if 0x70 <= h.opcode <= 0x7F || 0xE0 <= h.opcode <= 0xE3 || 0x80 <= h.opcode2 <= 0x8F {
      ok, code, jmpDest := TranslateJcc(arch, target, slot, oldPos, newPos, h, src, jmpDestBefore);
    } else if h.opcode == 0xC2 || h.opcode == 0xC3 {
      // Control does not come past a RET either, unless an earlier branch goes there.
      finished := pOldInst >= jmpDest;
    }
  }

  /** The checked instruction at the next boundary, as the loop reads it from the live memory. */
  method NextInstruction(arch: Arch, decode: Decoder, m: Mem, target: nat, slot: nat, oldPos: nat, newPos: nat,
                         jmpDestBefore: nat)
    returns (ok: bool, h: Hde, code: seq<Byte>, jmpDest: nat, finished: bool)
    requires DecoderSane(arch, decode)
    ensures h == decode(Read(m, target + oldPos, WINDOW))
    ensures (if h.error then None else CodeAt(arch, target, slot, m, h, oldPos, newPos)) ==
            if ok then Some(code) else None
    ensures ok ==> Translated(arch, target, oldPos, newPos, h, jmpDestBefore, code, jmpDest, finished)
  {
    var pOldInst, pNewInst := target + oldPos, slot + newPos;
    h := decode(Read(m, pOldInst, WINDOW));
    ok, code, jmpDest, finished := false, [], jmpDestBefore, false;
    if !h.error {
      if oldPos >= JMP_REL {
        // Five bytes have been copied: the rest of the function is jumped to.
        ok, code, finished := true, JmpCode(arch, pNewInst, pOldInst), true;
      } else {
        ok, code, jmpDest, finished :=
          TranslateOne(arch, target, slot, oldPos, newPos, h, Read(m, pOldInst, h.len), jmpDestBefore);
      }
    }
  }

  /** What one round of the loop contributes to the relocation. */
  ghost predicate Advances(arch: Arch, decode: Decoder, m: Mem, target: nat, slot: nat, cs: seq<Copy>, ok: bool,
                           c: Copy, finished: bool)
    requires DecoderSane(arch, decode)
  {
    Relocate(arch, decode, m, target, slot, cs) ==
      if !ok then None
      else if finished then Some(cs + [c])
      else Relocate(arch, decode, m, target, slot, cs + [c])
  }

  lemma Advance(arch: Arch, decode: Decoder, m: Mem, target: nat, slot: nat, cs: seq<Copy>, moved: bool, c: Copy,
                jmpDest: nat, finished: bool, ok: bool)
    requires DecoderSane(arch, decode)
    requires c.oldPos == NextOld(cs) && c.newPos == NextNew(cs)
    requires c.h == decode(Read(m, target + c.oldPos, WINDOW))
    requires (if c.h.error then None else CodeAt(arch, target, slot, m, c.h, c.oldPos, c.newPos)) ==
             if moved then Some(c.code) else None
    requires var farthest := FarthestInternal(arch, target, cs);
             moved ==> Translated(arch, target, c.oldPos, c.newPos, c.h, farthest, c.code, jmpDest, finished)
    requires ok == (&& moved && !(target + c.oldPos < jmpDest && |c.code| != c.h.len)
                    && c.newPos + |c.code| <= TrampolineMaxSize(arch) && |cs| < MAX_IPS)
    ensures Advances(arch, decode, m, target, slot, cs, ok, c, finished)
    ensures moved ==> jmpDest == FarthestInternal(arch, target, cs + [c])
  {
    hide CodeAt, InternalDest, Finishes, FarthestInternal;
    FarthestNext(arch, target, cs, c);
    if moved {
      assert c == Copy(c.oldPos, c.newPos, c.h, c.code);
    }
    assert ok ==> NextCopy(arch, decode, m, target, slot, cs) == Some(c);
    assert !ok ==> NextCopy(arch, decode, m, target, slot, cs) == None;
  }

  /** One round of the relocation loop up to the write; before is the memory the relocation started from. */
  method NextBoundary(arch: Arch, decode: Decoder, m: Mem, target: nat, slot: nat, oldPos: nat, newPos: nat, nIP: nat,
                      jmpDestBefore: nat, ghost before: Mem, ghost cs: seq<Copy>)
    returns (ok: bool, h: Hde, code: seq<Byte>, jmpDest: nat, finished: bool)
    requires DecoderSane(arch, decode)
    requires oldPos == NextOld(cs) <= 19 && newPos == NextNew(cs) && nIP == |cs|
    requires jmpDestBefore == FarthestInternal(arch, target, cs)
    requires Agree(before, m, target, READ_AHEAD)
    ensures Advances(arch, decode, before, target, slot, cs, ok, Copy(oldPos, newPos, h, code), finished)
    ensures ok ==> jmpDest == FarthestInternal(arch, target, cs + [Copy(oldPos, newPos, h, code)])
    ensures ok ==> 1 <= h.len <= 15 && newPos + |code| <= TrampolineMaxSize(arch) && |cs| < MAX_IPS
    ensures ok && oldPos >= JMP_REL ==> finished
  {
    var moved;
    moved, h, code, jmpDest, finished := NextInstruction(arch, decode, m, target, slot, oldPos, newPos, jmpDestBefore);
    SameInstruction(arch, decode, before, m, target, slot, oldPos, newPos);
    // A copy of another length would shift what an earlier branch goes to.
    ok := moved && !(target + oldPos < jmpDest && |code| != h.len)
          && newPos + |code| <= TrampolineMaxSize(arch) && nIP < MAX_IPS;
    Advance(arch, decode, before, target, slot, cs, moved, Copy(oldPos, newPos, h, code), jmpDest, finished, ok);
  }

  /** Writing the slot does not change what the builder reads at the target. */
  lemma SameInstruction(arch: Arch, decode: Decoder, m: Mem, m': Mem, target: nat, slot: nat, o: nat, n: nat)
    requires DecoderSane(arch, decode)
    requires o <= 19 && Agree(m, m', target, READ_AHEAD)
    ensures Read(m, target + o, WINDOW) == Read(m', target + o, WINDOW)
    ensures var h := decode(Read(m, target + o, WINDOW));
            CodeAt(arch, target, slot, m, h, o, n) == CodeAt(arch, target, slot, m', h, o, n)
  {
    ReadAgree(m, m', target + o, WINDOW);
    ReadAgree(m, m', target + o, decode(Read(m, target + o, WINDOW)).len);
  }

  lemma FarthestNext(arch: Arch, target: nat, cs: seq<Copy>, c: Copy)
    ensures var before, d := FarthestInternal(arch, target, cs), InternalDest(arch, target, c);
            FarthestInternal(arch, target, cs + [c]) == if before < d then d else before
  {
    assert (cs + [c])[..|cs|] == cs;
  }

  /** Where the patch goes: on the target, above it, or nowhere. */
  method FindPatchRoom(p: Process, target: nat, oldPos: nat) returns (ok: bool, patchAbove: bool)
    requires JMP_REL <= target
    ensures patchAbove ==> ok
    ensures ok <==> Room(p.mem, target, oldPos, JMP_REL)
                    || (Room(p.mem, target, oldPos, JMP_REL_SHORT) && RoomAbove(p.mem, p.executable, target))
    ensures ok ==> patchAbove == !Room(p.mem, target, oldPos, JMP_REL)
  {
    patchAbove := false;
    if oldPos >= JMP_REL {
      return true, false;
    }
    var long := IsCodePadding(p.mem, target + oldPos, JMP_REL - oldPos);
    if !long {
      if oldPos < JMP_REL_SHORT {
        var short := IsCodePadding(p.mem, target + oldPos, JMP_REL_SHORT - oldPos);
        if !short {
          return false, false;
        }
      }
      if !p.executable(target - JMP_REL) {
        return false, false;
      }
      var above := IsCodePadding(p.mem, target - JMP_REL, JMP_REL);
      if !above {
        return false, false;
      }
      patchAbove := true;
    }
    ok := true;
  }

  /**
   Copies the first instructions of the target into the slot, adjusting what depends on the
   address, and decides where the patch will go. Only the slot is written. It succeeds exactly
   when the code can be relocated and there is room for the patch.
   */
  method CreateTrampolineFunction(arch: Arch, decode: Decoder, p: Process, ct: Trampoline)
    returns (ok: bool, ghost cs: seq<Copy>)
    requires DecoderSane(arch, decode)
    requires ct.Valid() && JMP_REL <= ct.pTarget
    requires Apart(ct.pTarget, ct.pTrampoline, SlotSize(arch))
    modifies p`mem, ct`pRelay, ct`patchAbove, ct`nIP, ct.oldIPs, ct.newIPs
    ensures forall x :: !(ct.pTrampoline <= x < ct.pTrampoline + SlotSize(arch)) ==> p.mem(x) == old(p.mem)(x)
    ensures ok <==> CanHook(arch, decode, old(p.mem), p.executable, ct.pTarget, ct.pTrampoline)
    ensures ok ==> Relocate(arch, decode, old(p.mem), ct.pTarget, ct.pTrampoline, []) == Some(cs)
    ensures ok ==> Layout(arch, decode, old(p.mem), ct.pTarget, ct.pTrampoline, cs)
    ensures ok ==> ct.Lists(cs) && SlotHolds(p.mem, ct.pTrampoline, cs)
    ensures ok ==> ct.patchAbove == !Room(old(p.mem), ct.pTarget, SourceEnd(cs), JMP_REL)
    ensures ok && arch == X64 ==>
              && ct.pRelay == ct.pTrampoline + CodeEnd(cs)
              && Read(p.mem, ct.pRelay, JmpSize(arch)) == JmpCode(arch, ct.pRelay, ct.pDetour)
  {
    hide Relocate, Layout, SlotHolds, IsPadding, Ends, CopyOk;
    var target, slot := ct.pTarget, ct.pTrampoline;
    var relocated, oldPos, newPos;
    relocated, oldPos, newPos, cs := CopyInstructions(arch, decode, p, ct);
    if !relocated {
      return false, cs;
    }
    RelocateGivesLayout(arch, decode, old(p.mem), target, slot, []);
    assert oldPos <= 34 by {
      BoundariesFit(arch, decode, old(p.mem), target, slot, cs);
    }
    var room, above := FindPatchRoom(p, target, oldPos);
    SameRoom(old(p.mem), p.mem, target, oldPos);
    if !room {
      return false, cs;
    }
    ct.patchAbove := above;
    if arch == X64 {
      WriteRelay(arch, p, ct, newPos, old(p.mem), cs);
    }
    return true, cs;
  }

  /** Creates the relay function behind the copies. */
  method WriteRelay(arch: Arch, p: Process, ct: Trampoline, newPos: nat, ghost m: Mem, ghost cs: seq<Copy>)
    requires Filled(p.mem, m, ct.pTrampoline, cs, newPos)
    modifies p`mem, ct`pRelay
    ensures ct.pRelay == ct.pTrampoline + newPos
    ensures Filled(p.mem, m, ct.pTrampoline, cs, newPos + JmpSize(arch))
    ensures Read(p.mem, ct.pRelay, JmpSize(arch)) == JmpCode(arch, ct.pRelay, ct.pDetour)
  {
    ct.pRelay := ct.pTrampoline + newPos;
    var jmp := JmpCode(arch, ct.pRelay, ct.pDetour);
    Placed(p.mem, ct.pTrampoline, cs, newPos, jmp);
    ReadWritten(p.mem, ct.pRelay, jmp);
    p.mem := Write(p.mem, ct.pRelay, jmp);
  }

  /** Exactly when a trampoline can be built. */
  predicate CanHook(arch: Arch, decode: Decoder, m: Mem, executable: int -> bool, target: nat, slot: nat)
    requires DecoderSane(arch, decode)
  {
    var r := Relocate(arch, decode, m, target, slot, []);
    r.Some? && r.value != [] && Patchable(m, executable, target, r.value)
  }

  /** The relocation loop. */
  method CopyInstructions(arch: Arch, decode: Decoder, p: Process, ct: Trampoline)
    returns (ok: bool, oldPos: nat, newPos: nat, ghost cs: seq<Copy>)
    requires DecoderSane(arch, decode)
    requires ct.Valid() && JMP_REL <= ct.pTarget
    requires Apart(ct.pTarget, ct.pTrampoline, SlotSize(arch))
    modifies p`mem, ct`patchAbove, ct`nIP, ct.oldIPs, ct.newIPs
    ensures forall x :: !(ct.pTrampoline <= x < ct.pTrampoline + TrampolineMaxSize(arch)) ==> p.mem(x) == old(p.mem)(x)
    ensures ok <==> Relocate(arch, decode, old(p.mem), ct.pTarget, ct.pTrampoline, []).Some?
    ensures ok ==> Relocate(arch, decode, old(p.mem), ct.pTarget, ct.pTrampoline, []) == Some(cs)
    ensures ok ==> cs != [] && oldPos == SourceEnd(cs) && newPos == CodeEnd(cs) <= TrampolineMaxSize(arch)
    ensures ok ==> ct.Lists(cs) && Filled(p.mem, old(p.mem), ct.pTrampoline, cs, newPos) && !ct.patchAbove
  {
    hide CopyOk, Translate, Classify;
    ghost var m := p.mem;
    var target, slot := ct.pTarget, ct.pTrampoline;
    var jmpDest, finished := 0, false;
    oldPos, newPos, cs := 0, 0, [];
    ct.patchAbove, ct.nIP := false, 0;
    while !finished
      invariant ct.Lists(cs) && !ct.patchAbove
      invariant oldPos == NextOld(cs) && newPos == NextNew(cs) <= TrampolineMaxSize(arch)
      invariant jmpDest == FarthestInternal(arch, target, cs)
      invariant Relocate(arch, decode, m, target, slot, []) ==
                if finished then Some(cs) else Relocate(arch, decode, m, target, slot, cs)
      invariant finished ==> cs != []
      invariant !finished ==> oldPos <= 19
      invariant Filled(p.mem, m, slot, cs, newPos)
      decreases if finished then 0 else if oldPos < JMP_REL then 1 + JMP_REL - oldPos else 1
    {
      var h, code;
      ok, h, code, jmpDest, finished :=
        NextBoundary(arch, decode, p.mem, target, slot, oldPos, newPos, ct.nIP, jmpDest, m, cs);
      if !ok {
        return;
      }
      WriteBoundary(p, ct, oldPos, newPos, h, code, m, cs);
      cs := cs + [Copy(oldPos, newPos, h, code)];
      newPos := newPos + |code|;
      oldPos := oldPos + h.len;
    }
    ok := true;
  }

  /** The slot holds the copies cs in its first `end` bytes, and nothing outside them differs from m. */
  ghost predicate Filled(m': Mem, m: Mem, slot: nat, cs: seq<Copy>, end: nat) {
    && SlotHolds(m', slot, cs)
    && (forall i :: 0 <= i < |cs| ==> cs[i].newPos + |cs[i].code| <= end)
    && forall x :: !(slot <= x < slot + end) ==> m'(x) == m(x)
  }

  lemma FilledNext(m': Mem, m: Mem, slot: nat, cs: seq<Copy>, c: Copy)
    requires Filled(m', m, slot, cs, c.newPos)
    ensures Filled(Write(m', slot + c.newPos, c.code), m, slot, cs + [c], c.newPos + |c.code|)
  {
    Placed(m', slot, cs, c.newPos, c.code);
    ReadWritten(m', slot + c.newPos, c.code);
    var cs' := cs + [c];
    assert forall i :: 0 <= i < |cs'| ==> cs'[i] == (if i < |cs| then cs[i] else c);
  }

  method WriteBoundary(p: Process, ct: Trampoline, oldPos: nat, newPos: nat, h: Hde, code: seq<Byte>, ghost m: Mem,
                       ghost cs: seq<Copy>)
    requires ct.Valid() && ct.Lists(cs) && |cs| < MAX_IPS && oldPos < 0x100 && newPos < 0x100
    requires Filled(p.mem, m, ct.pTrampoline, cs, newPos)
    modifies p`mem, ct`nIP, ct.oldIPs, ct.newIPs
    ensures ct.Lists(cs + [Copy(oldPos, newPos, h, code)])
    ensures Filled(p.mem, m, ct.pTrampoline, cs + [Copy(oldPos, newPos, h, code)], newPos + |code|)
  {
    hide *;
    FilledNext(p.mem, m, ct.pTrampoline, cs, Copy(oldPos, newPos, h, code));
    ct.Record(oldPos, newPos, h, code, cs);
    p.mem := Write(p.mem, ct.pTrampoline + newPos, code);
  }

  lemma SameRoom(m: Mem, m': Mem, target: nat, e: nat)
    requires JMP_REL <= target && Agree(m, m', target - JMP_REL, JMP_REL + READ_AHEAD)
    ensures Room(m, target, e, JMP_REL) == Room(m', target, e, JMP_REL)
    ensures Room(m, target, e, JMP_REL_SHORT) == Room(m', target, e, JMP_REL_SHORT)
    ensures IsPadding(m, target - JMP_REL, JMP_REL) == IsPadding(m', target - JMP_REL, JMP_REL)
  {
  }

  /** Code written behind the copies leaves them as they are. */
  lemma Placed(m: Mem, slot: nat, cs: seq<Copy>, end: nat, code: seq<Byte>)
    requires SlotHolds(m, slot, cs)
    requires forall i :: 0 <= i < |cs| ==> cs[i].newPos + |cs[i].code| <= end
    ensures SlotHolds(Write(m, slot + end, code), slot, cs)
  {
    var m' := Write(m, slot + end, code);
    forall i | 0 <= i < |cs|
      ensures Read(m', slot + cs[i].newPos, |cs[i].code|) == cs[i].code
    {
      ReadAgree(m, m', slot + cs[i].newPos, |cs[i].code|);
    }
  }
}
