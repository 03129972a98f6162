/**
 A trampoline means what the copied instructions meant: one instruction of the original code is
 matched by one or two in the slot, and a whole run through the copied region by a run through the slot.
 */
module TrampolineSim {
  import opened Bytes
  import opened Cpu
  import opened TrampolineSpec
  import opened TemplateRuns

  /** m0 holds the code at target that was copied; m is any memory in which the slot holds the copies. */
  ghost predicate Built<D>(c: Machine<D>, m0: Mem, m: Mem, target: nat, slot: nat, cs: seq<Copy>) {
    && DecoderOk(c.arch, c.decode)
    && Layout(c.arch, c.decode, m0, target, slot, cs)
    && SlotHolds(m, slot, cs)
    && target + 64 <= Modulus(c.arch) && slot + SlotSize(c.arch) <= Modulus(c.arch)
  }

  /**
   t is the slot's counterpart of o: the copy of the same boundary, or the very same address outside the
   patched bytes.
   */
  ghost predicate SameIp(target: nat, slot: nat, cs: seq<Copy>, o: nat, t: nat) {
    || (exists k :: 0 <= k < |cs| && o == target + cs[k].oldPos && t == slot + cs[k].newPos)
    || (o == t && !Internal(target, o))
  }

  /** Returning to t continues in the slot where returning to o would continue in the original. */
  ghost predicate SameReturn<D(!new)>(c: Machine<D>, m: Mem, target: nat, slot: nat, cs: seq<Copy>, o: nat, t: nat) {
    exists k :: 0 <= k < |cs| && o == target + cs[k].oldPos &&
      (t == slot + cs[k].newPos || Hops(c, m, t, slot + cs[k].newPos))
  }

  /** Results of an original step and of a step in the slot that correspond. */
  ghost predicate Matches<D(!new)>(c: Machine<D>, m: Mem, target: nat, slot: nat, cs: seq<Copy>, o: Out<D>, t: Out<D>) {
    && t.data == o.data
    && (o.push.None? <==> t.push.None?)
    && (o.push.Some? ==> SameReturn(c, m, target, slot, cs, o.push.value, t.push.value))
    && (if o.direct && o.push.None? then SameIp(target, slot, cs, o.ip, t.ip) else t.ip == o.ip)
  }

  predicate InSlot(slot: nat, cs: seq<Copy>, ip: int)
    requires cs != []
  {
    slot <= ip < slot + CodeEnd(cs)
  }

  /** The slot code at `at` does in one instruction, or in a silent one and another, what o says. */
  ghost predicate Simulates<D(!new)>(c: Machine<D>, m: Mem, target: nat, slot: nat, cs: seq<Copy>, at: nat, d: D,
                                     o: Out<D>)
    requires cs != []
  {
    var t := Step(c, m, at, d);
    || Matches(c, m, target, slot, cs, o, t)
    || (Silent(t, d) && InSlot(slot, cs, t.ip) && Matches(c, m, target, slot, cs, o, Step(c, m, t.ip, d)))
  }

  // ---------- When the copy of an instruction can be faithful ----------

  /** Copies k..i-1 have together the length of their originals. */
  predicate DistanceKept(cs: seq<Copy>, k: nat, i: nat)
    requires k < |cs| && i < |cs|
  {
    cs[i].newPos - cs[k].newPos == cs[i].oldPos - cs[k].oldPos
  }

  /** An internal branch goes to a copied boundary, and a backward one over an unchanged distance. */
  ghost predicate BranchLands(arch: Arch, target: nat, cs: seq<Copy>, i: nat)
    requires i < |cs|
  {
    InternalBranch(arch, target, cs[i]) ==>
      exists k :: 0 <= k < |cs| && target + cs[k].oldPos == InternalDest(arch, target, cs[i]) &&
        (k <= i ==> DistanceKept(cs, k, i))
  }

  /** The displacement a RIP-relative operand needs at its new place. */
  function RipDelta(h: Hde, from: int, to: int): int {
    from + Sext32(h.disp32) - to
  }

  predicate RipTransfer(h: Hde) {
    h.opcode == 0xFF && (RegField(h) == 2 || RegField(h) == 4)
  }

  /**
   A RIP-relative operand stays within reach, and the pointer of an indirect jump or call is the same in both
   memories.
   */
  ghost predicate OperandReached(arch: Arch, m0: Mem, m: Mem, target: nat, slot: nat, c: Copy) {
    Classify(arch, c.h) == RipOperand ==>
      && FitsInt32(RipDelta(c.h, target + c.oldPos, slot + c.newPos))
      && (RipTransfer(c.h) ==> Agree(m0, m, RipAddress(arch, c.h, target + c.oldPos), 8))
  }

  ghost predicate Movable(arch: Arch, m0: Mem, m: Mem, target: nat, slot: nat, cs: seq<Copy>, i: nat)
    requires i < |cs|
  {
    BranchLands(arch, target, cs, i) && OperandReached(arch, m0, m, target, slot, cs[i])
  }

  // ---------- Boundaries ----------

  lemma EndMaps<D>(c: Machine<D>, m0: Mem, m: Mem, target: nat, slot: nat, cs: seq<Copy>, i: nat)
    requires Built(c, m0, m, target, slot, cs) && i + 1 < |cs|
    ensures Wrap(c.arch, target + cs[i].oldPos + cs[i].h.len) == target + cs[i + 1].oldPos
    ensures Wrap(c.arch, slot + cs[i].newPos + |cs[i].code|) == slot + cs[i + 1].newPos
    ensures cs[i].newPos + |cs[i].code| == cs[i + 1].newPos
  {
    hide CopyOk, Ends, SlotHolds, BranchesKeepDistance, Closing, DecoderLocal, DecoderRip, DecoderTemplates,
         DecoderSane;
    BoundariesFit(c.arch, c.decode, m0, target, slot, cs);
    LayoutIsShaped(c.arch, c.decode, m0, target, slot, cs);
    assert Follows(cs[i], cs[i + 1]);
  }

  /** The fall-through of an original step and of its copy correspond, whatever the instruction does otherwise. */
  lemma FinishMatches<D(!new)>(c: Machine<D>, m0: Mem, m: Mem, target: nat, slot: nat, cs: seq<Copy>, i: nat,
                               e: Effect<D>)
    requires Built(c, m0, m, target, slot, cs) && i + 1 < |cs|
    ensures Matches(c, m, target, slot, cs, Finish(e, Wrap(c.arch, target + cs[i].oldPos + cs[i].h.len)),
                    Finish(e, Wrap(c.arch, slot + cs[i].newPos + |cs[i].code|)))
  {
    EndMaps(c, m0, m, target, slot, cs, i);
    hide Built, Wrap;
    assert 0 <= i + 1 < |cs|;
  }

  /** A copy that is not followed by another never falls through. */
  lemma LastIsFinal<D>(c: Machine<D>, m0: Mem, m: Mem, target: nat, slot: nat, cs: seq<Copy>, i: nat)
    requires Built(c, m0, m, target, slot, cs) && i + 1 == |cs| && !Closing(cs[i])
    ensures var k := Classify(c.arch, cs[i].h);
            RipJump(c.arch, cs[i].h) || k == Ret ||
              ((k == JmpNear || k == JmpShort) && !InternalBranch(c.arch, target, cs[i]))
  {
    hide CopyOk, Chained, SlotHolds, BranchesKeepDistance;
  }

  lemma VerbatimDecode(arch: Arch, decode: Decoder, m0: Mem, from: int, m: Mem, to: int)
    requires DecoderSane(arch, decode) && DecoderLocal(decode)
    requires !decode(Read(m0, from, WINDOW)).error
    requires var n := decode(Read(m0, from, WINDOW)).len; Read(m, to, n) == Read(m0, from, n)
    ensures decode(Read(m, to, WINDOW)) == decode(Read(m0, from, WINDOW))
  {
    var w, w' := Read(m0, from, WINDOW), Read(m, to, WINDOW);
    var n := decode(w).len;
    ReadPart(m0, from, WINDOW, 0, n);
    ReadPart(m, to, WINDOW, 0, n);
    assert w[..n] == w'[..n];
  }

  // ---------- One copied instruction ----------

  lemma ExactMatches<D(!new)>(c: Machine<D>, m: Mem, target: nat, slot: nat, cs: seq<Copy>, o: Out<D>, t: Out<D>)
    requires o.push.None? && t.push.None? && t.data == o.data && t.ip == o.ip
    requires !o.direct || !Internal(target, o.ip)
    ensures Matches(c, m, target, slot, cs, o, t)
  {
  }

  /** An instruction that is neither moved nor a branch: same bytes, same effect. */
  lemma PlainSimulated<D(!new)>(c: Machine<D>, m0: Mem, m: Mem, target: nat, slot: nat, cs: seq<Copy>, i: nat, d: D)
    requires Built(c, m0, m, target, slot, cs) && i < |cs| && !Closing(cs[i])
    requires Classify(c.arch, cs[i].h) == Plain || Classify(c.arch, cs[i].h) == Ret
    ensures Matches(c, m, target, slot, cs, Step(c, m0, target + cs[i].oldPos, d), Step(c, m, slot + cs[i].newPos, d))
  {
    hide Matches, SameIp, SameReturn, Ends, Chained, BranchesKeepDistance, InternalBranch, DecoderRip,
         DecoderTemplates, Wrap;
    var h, from, to := cs[i].h, target + cs[i].oldPos, slot + cs[i].newPos;
    assert CopyOk(c.arch, c.decode, m0, target, slot, cs[i]);
    assert cs[i].code == Read(m0, from, h.len);
    VerbatimDecode(c.arch, c.decode, m0, from, m, to);
    if Classify(c.arch, h) == Plain {
      if i + 1 == |cs| {
        LastIsFinal(c, m0, m, target, slot, cs, i);
      } else {
        FinishMatches(c, m0, m, target, slot, cs, i, c.exec(Read(m0, from, h.len), 0, d));
      }
    } else {
      ExactMatches(c, m, target, slot, cs, Step(c, m0, from, d), Step(c, m, to, d));
    }
  }

  /** What the original instruction of boundary i does when it is a relative call, jump or conditional jump. */
  lemma OriginalStep<D>(c: Machine<D>, m0: Mem, target: nat, slot: nat, x: Copy, d: D)
    requires CopyOk(c.arch, c.decode, m0, target, slot, x)
    ensures var from, k := target + x.oldPos, Classify(c.arch, x.h);
            var end, dest := Wrap(c.arch, from + x.h.len), Dest(c.arch, x.h, from);
            && (k == CallRel ==> Step(c, m0, from, d) == Out(dest, Some(end), true, d))
            && (k == JmpNear || k == JmpShort ==> Step(c, m0, from, d) == Out(dest, None, true, d))
            && (k == JccNear || k == JccShort ==>
                Step(c, m0, from, d) == Out(if Holds(c, Cond(x.h), d) then dest else end, None, true, d))
  {
    hide Translate, JmpCode, Dest, Wrap, Holds, Cond, Read;
  }

  lemma CallSimulated<D(!new)>(c: Machine<D>, m0: Mem, m: Mem, target: nat, slot: nat, cs: seq<Copy>, i: nat, d: D)
    requires Built(c, m0, m, target, slot, cs) && i < |cs| && !Closing(cs[i])
    requires Classify(c.arch, cs[i].h) == CallRel
    ensures Matches(c, m, target, slot, cs, Step(c, m0, target + cs[i].oldPos, d), Step(c, m, slot + cs[i].newPos, d))
  {
    hide Step, SameIp, Ends, Chained, BranchesKeepDistance, DecoderOk, Wrap, Hops, Read, Dest, SameReturn, Matches;
    var h, from, to := cs[i].h, target + cs[i].oldPos, slot + cs[i].newPos;
    OriginalStep(c, m0, target, slot, cs[i], d);
    var dest := Dest(c.arch, h, from);
    if i + 1 == |cs| {
      LastIsFinal(c, m0, m, target, slot, cs, i);
    } else {
      EndMaps(c, m0, m, target, slot, cs, i);
      SlotRoom(c, m0, m, target, slot, cs, i);
      CallCodeRuns(c, m, to, dest, d);
      CallMatches(c, m, target, slot, cs, i + 1, Step(c, m0, from, d), Step(c, m, to, d));
    }
  }

  lemma CallMatches<D(!new)>(c: Machine<D>, m: Mem, target: nat, slot: nat, cs: seq<Copy>, k: nat, o: Out<D>, t: Out<D>)
    requires o.push.Some? && t.push.Some? && t.data == o.data && t.ip == o.ip
    requires k < |cs| && o.push.value == target + cs[k].oldPos
    requires t.push.value == slot + cs[k].newPos || Hops(c, m, t.push.value, slot + cs[k].newPos)
    ensures Matches(c, m, target, slot, cs, o, t)
  {
  }

  /** The code of a boundary ends inside the address space, and its destinations are addresses. */
  lemma SlotRoom<D>(c: Machine<D>, m0: Mem, m: Mem, target: nat, slot: nat, cs: seq<Copy>, i: nat)
    requires Built(c, m0, m, target, slot, cs) && i < |cs|
    ensures slot + cs[i].newPos + |cs[i].code| <= Modulus(c.arch)
    ensures c.arch == X64 ==> slot + cs[i].newPos + |cs[i].code| + 14 <= Modulus(c.arch)
    ensures i + 1 < |cs| ==> slot + cs[i].newPos + |cs[i].code| < Modulus(c.arch)
    ensures Read(m, slot + cs[i].newPos, |cs[i].code|) == cs[i].code
    ensures Dest(c.arch, cs[i].h, target + cs[i].oldPos) < Modulus(c.arch)
    ensures cs[i].newPos + |cs[i].code| <= CodeEnd(cs)
  {
    hide CopyOk, Ends, BranchesKeepDistance, Closing, DecoderLocal, DecoderRip, DecoderTemplates, DecoderSane;
    BoundariesFit(c.arch, c.decode, m0, target, slot, cs);
    LayoutIsShaped(c.arch, c.decode, m0, target, slot, cs);
    ShapeFits(cs);
    if i + 1 < |cs| {
      assert Follows(cs[i], cs[i + 1]);
    }
  }

  /** A jump out of the first five bytes leaves the slot at exactly its destination. */
  lemma JmpSimulated<D(!new)>(c: Machine<D>, m0: Mem, m: Mem, target: nat, slot: nat, cs: seq<Copy>, i: nat, d: D)
    requires Built(c, m0, m, target, slot, cs) && i < |cs| && !Closing(cs[i])
    requires var k := Classify(c.arch, cs[i].h); k == JmpNear || k == JmpShort
    requires !InternalBranch(c.arch, target, cs[i])
    ensures Matches(c, m, target, slot, cs, Step(c, m0, target + cs[i].oldPos, d), Step(c, m, slot + cs[i].newPos, d))
  {
    hide SameIp, Matches, Ends, Chained, BranchesKeepDistance, DecoderRip, DecoderTemplates, Wrap, JmpCode;
    var h, from, to := cs[i].h, target + cs[i].oldPos, slot + cs[i].newPos;
    assert CopyOk(c.arch, c.decode, m0, target, slot, cs[i]);
    var dest := Dest(c.arch, h, from);
    assert cs[i].code == JmpCode(c.arch, to, dest);
    SlotRoom(c, m0, m, target, slot, cs, i);
    JmpCodeSize(c.arch, to, dest);
    JmpCodeRuns(c, m, to, dest, d);
    ExactMatches(c, m, target, slot, cs, Step(c, m0, from, d), Step(c, m, to, d));
  }

  lemma JmpCodeSize(arch: Arch, at: int, dest: nat)
    ensures |JmpCode(arch, at, dest)| == JmpSize(arch)
  {
  }

  /** A conditional jump out of the first five bytes. */
  lemma JccSimulated<D(!new)>(c: Machine<D>, m0: Mem, m: Mem, target: nat, slot: nat, cs: seq<Copy>, i: nat, d: D)
    requires Built(c, m0, m, target, slot, cs) && i < |cs| && !Closing(cs[i])
    requires var k := Classify(c.arch, cs[i].h); k == JccNear || k == JccShort
    requires !InternalBranch(c.arch, target, cs[i])
    ensures Simulates(c, m, target, slot, cs, slot + cs[i].newPos, d, Step(c, m0, target + cs[i].oldPos, d))
  {
    hide Step, SameIp, Matches, Ends, Chained, BranchesKeepDistance, DecoderOk, Wrap, JccCode, Holds, Read, Dest;
    var h, from, to := cs[i].h, target + cs[i].oldPos, slot + cs[i].newPos;
    OriginalStep(c, m0, target, slot, cs[i], d);
    var dest := Dest(c.arch, h, from);
    assert Cond(h) < 16;
    assert cs[i].code == JccCode(c.arch, to, Cond(h), dest);
    if i + 1 == |cs| {
      LastIsFinal(c, m0, m, target, slot, cs, i);
    } else {
      SlotRoom(c, m0, m, target, slot, cs, i);
      EndMaps(c, m0, m, target, slot, cs, i);
      JccCodeSize(c.arch, to, Cond(h), dest);
      JccCodeRuns(c, m, to, Cond(h), dest, d);
      var o, t := Step(c, m0, from, d), Step(c, m, to, d);
      if !Holds(c, Cond(h), d) {
        BoundaryMatches(c, m, target, slot, cs, i + 1, o, t);
      } else if c.arch == X64 {
        ExactMatches(c, m, target, slot, cs, o, Step(c, m, t.ip, d));
      } else {
        ExactMatches(c, m, target, slot, cs, o, t);
      }
    }
  }

  lemma JccCodeSize(arch: Arch, at: int, cond: nat, dest: nat)
    requires cond < 16
    ensures |JccCode(arch, at, cond, dest)| == if arch == X64 then 16 else 6
  {
  }

  lemma BoundaryMatches<D(!new)>(c: Machine<D>, m: Mem, target: nat, slot: nat, cs: seq<Copy>, k: nat, o: Out<D>,
                                 t: Out<D>)
    requires o.push.None? && t.push.None? && t.data == o.data && o.direct
    requires k < |cs| && o.ip == target + cs[k].oldPos && t.ip == slot + cs[k].newPos
    ensures Matches(c, m, target, slot, cs, o, t)
  {
  }

  // ---------- Internal branches ----------

  lemma {:induction false} ForwardDistance(arch: Arch, target: nat, cs: seq<Copy>, i: nat, j: nat, k: nat)
    requires Shaped(cs) && BranchesKeepDistance(arch, target, cs)
    requires i <= j <= k < |cs|
    requires target + cs[k].oldPos == InternalDest(arch, target, cs[i])
    ensures cs[k].newPos - cs[j].newPos == cs[k].oldPos - cs[j].oldPos
    decreases k - j
  {
    hide InternalDest;
    if j < k {
      assert Follows(cs[j], cs[j + 1]);
      Increasing(cs, j, k);
      assert |cs[j].code| == cs[j].h.len;
      ForwardDistance(arch, target, cs, i, j + 1, k);
    }
  }

  lemma WrapShifts(arch: Arch, x: int, k: int)
    requires 0 <= Wrap(arch, x) + k < Modulus(arch)
    ensures Wrap(arch, x + k) == Wrap(arch, x) + k
  {
    var q := x / Modulus(arch);
    assert x + k == Modulus(arch) * q + (Wrap(arch, x) + k);
  }

  /** Moving a relative branch moves its destination by as much. */
  lemma DestMoves(arch: Arch, h: Hde, from: nat, to: nat, dest: nat)
    requires Dest(arch, h, from) == dest && 0 <= dest + to - from < Modulus(arch)
    ensures Dest(arch, h, to) == dest + to - from
  {
    hide Wrap, Classify, Sext32;
    var off := if IsShort(Classify(arch, h)) then Sext8(h.imm8) else Sext32(h.imm32);
    WrapShifts(arch, from + h.len + off, to - from);
  }

  /** A backward internal branch is copied to the right place exactly when the copies it spans keep their length. */
  lemma InternalDestMoves<D>(c: Machine<D>, m0: Mem, m: Mem, target: nat, slot: nat, cs: seq<Copy>, i: nat, k: nat)
    requires Built(c, m0, m, target, slot, cs) && i < |cs| && k < |cs|
    requires InternalBranch(c.arch, target, cs[i]) && target + cs[k].oldPos == InternalDest(c.arch, target, cs[i])
    requires JMP_REL <= slot
    ensures k > i ==> DistanceKept(cs, k, i)
    ensures Dest(c.arch, cs[i].h, slot + cs[i].newPos) == slot + cs[k].newPos <==> DistanceKept(cs, k, i)
  {
    hide CopyOk, Ends, SlotHolds, DecoderLocal, DecoderRip, DecoderTemplates, DecoderSane, Wrap;
    var from, to := target + cs[i].oldPos, slot + cs[i].newPos;
    BoundariesFit(c.arch, c.decode, m0, target, slot, cs);
    LayoutIsShaped(c.arch, c.decode, m0, target, slot, cs);
    if i < k {
      ForwardDistance(c.arch, target, cs, i, i, k);
    } else if k < i {
      Increasing(cs, k, i);
    }
    assert cs[i].newPos + |cs[i].code| <= SlotSize(c.arch);
    assert cs[k].newPos + |cs[k].code| <= SlotSize(c.arch);
    DestMoves(c.arch, cs[i].h, from, to, target + cs[k].oldPos);
  }

  lemma InternalSimulated<D(!new)>(c: Machine<D>, m0: Mem, m: Mem, target: nat, slot: nat, cs: seq<Copy>, i: nat, d: D)
    requires Built(c, m0, m, target, slot, cs) && i < |cs| && JMP_REL <= slot
    requires InternalBranch(c.arch, target, cs[i]) && BranchLands(c.arch, target, cs, i)
    ensures Matches(c, m, target, slot, cs, Step(c, m0, target + cs[i].oldPos, d), Step(c, m, slot + cs[i].newPos, d))
  {
    hide Step, Matches, Ends, Chained, BranchesKeepDistance, DecoderRip, DecoderTemplates, Wrap, Read, Dest, CopyOk;
    var h, from, to := cs[i].h, target + cs[i].oldPos, slot + cs[i].newPos;
    var k :| 0 <= k < |cs| && target + cs[k].oldPos == InternalDest(c.arch, target, cs[i]) &&
      (k <= i ==> DistanceKept(cs, k, i));
    InternalDestMoves(c, m0, m, target, slot, cs, i, k);
    assert CopyOk(c.arch, c.decode, m0, target, slot, cs[i]);
    VerbatimBranch(c, m0, m, target, slot, cs, i);
    BranchOutcome(c, m0, from, h, d);
    BranchOutcome(c, m, to, h, d);
    var o, t := Step(c, m0, from, d), Step(c, m, to, d);
    if o.ip == target + cs[k].oldPos && t.ip == slot + cs[k].newPos {
      BoundaryMatches(c, m, target, slot, cs, k, o, t);
    } else {
      if i + 1 == |cs| {
        LastIsFinal(c, m0, m, target, slot, cs, i);
      }
      EndMaps(c, m0, m, target, slot, cs, i);
      BoundaryMatches(c, m, target, slot, cs, i + 1, o, t);
    }
  }

  lemma VerbatimBranch<D>(c: Machine<D>, m0: Mem, m: Mem, target: nat, slot: nat, cs: seq<Copy>, i: nat)
    requires Built(c, m0, m, target, slot, cs) && i < |cs|
    requires InternalBranch(c.arch, target, cs[i])
    ensures c.decode(Read(m0, target + cs[i].oldPos, WINDOW)) == cs[i].h
    ensures c.decode(Read(m, slot + cs[i].newPos, WINDOW)) == cs[i].h
    ensures |cs[i].code| == cs[i].h.len
  {
    hide Ends, Chained, BranchesKeepDistance, DecoderRip, DecoderTemplates, Wrap;
    assert CopyOk(c.arch, c.decode, m0, target, slot, cs[i]);
    VerbatimDecode(c.arch, c.decode, m0, target + cs[i].oldPos, m, slot + cs[i].newPos);
  }

  predicate Taken<D>(c: Machine<D>, h: Hde, d: D) {
    var k := Classify(c.arch, h);
    k == JmpNear || k == JmpShort || (if k == LoopShort then c.loop(h.opcode, d).0 else Holds(c, Cond(h), d))
  }

  function AfterBranch<D>(c: Machine<D>, h: Hde, d: D): D {
    if Classify(c.arch, h) == LoopShort then c.loop(h.opcode, d).1 else d
  }

  /** A relative branch, wherever it is placed. */
  lemma BranchOutcome<D>(c: Machine<D>, m: Mem, at: nat, h: Hde, d: D)
    requires h == c.decode(Read(m, at, WINDOW)) && IsBranch(Classify(c.arch, h))
    ensures Step(c, m, at, d) ==
            Out(if Taken(c, h, d) then Dest(c.arch, h, at) else Wrap(c.arch, at + h.len), None, true,
                AfterBranch(c, h, d))
    ensures Classify(c.arch, h) == JmpNear || Classify(c.arch, h) == JmpShort ==> Taken(c, h, d)
  {
    hide Dest, Wrap, Holds, Cond, Read;
  }

  // ---------- RIP-relative operands ----------

  /** The rewritten displacement addresses the same operand exactly when the distance fits a signed 32-bit field
      (for addresses in the lower half of the address space, where user code lives). */
  lemma OperandKept(h: Hde, from: nat, to: nat)
    requires from < 0x8000_0000_0000_0000 && to < 0x8000_0000_0000_0000 && h.disp32 < 0x1_0000_0000 && h.len < WINDOW
    ensures RipAddress(X64, h.(disp32 := Trunc32(RipDelta(h, from, to))), to) == RipAddress(X64, h, from)
            <==> FitsInt32(RipDelta(h, from, to))
  {
    var delta := RipDelta(h, from, to);
    var s := Sext32(Trunc32(delta));
    SextTrunc(delta);
    var a, b := to + h.len + s, from + h.len + Sext32(h.disp32);
    assert a - b == s - delta;
    assert -0x1_0000_0000_0000_0000 < a - b < 0x1_0000_0000_0000_0000;
    SameModulo(a, b);
  }

  lemma SameModulo(a: int, b: int)
    requires -0x1_0000_0000_0000_0000 < a - b < 0x1_0000_0000_0000_0000
    ensures a % 0x1_0000_0000_0000_0000 == b % 0x1_0000_0000_0000_0000 <==> a == b
  {
    var q, r := a / 0x1_0000_0000_0000_0000, b / 0x1_0000_0000_0000_0000;
    if a % 0x1_0000_0000_0000_0000 == b % 0x1_0000_0000_0000_0000 {
      assert a - b == (q - r) * 0x1_0000_0000_0000_0000;
    }
  }

  /** The copy decodes as the original with another displacement, and no other byte of it changes. */
  lemma RipCopied<D>(c: Machine<D>, m0: Mem, m: Mem, target: nat, slot: nat, cs: seq<Copy>, i: nat)
    requires Built(c, m0, m, target, slot, cs) && i < |cs| && !Closing(cs[i])
    requires Classify(c.arch, cs[i].h) == RipOperand
    ensures var h, from, to, f := cs[i].h, target + cs[i].oldPos, slot + cs[i].newPos, RipField(cs[i].h);
            && c.decode(Read(m, to, WINDOW)) == h.(disp32 := Trunc32(RipDelta(h, from, to)))
            && |cs[i].code| == h.len && 2 <= f <= h.len - 4
            && Blank(Read(m, to, h.len), f) == Blank(Read(m0, from, h.len), f)
  {
    hide Ends, Chained, BranchesKeepDistance, DecoderTemplates, DecoderLocal, IsBranch, LE, FromLE, Trunc32, Sext32,
         JmpCode, InternalBranch, CodeEnd;
    var h, from, to, f := cs[i].h, target + cs[i].oldPos, slot + cs[i].newPos, RipField(cs[i].h);
    assert CopyOk(c.arch, c.decode, m0, target, slot, cs[i]);
    var src, code := Read(m0, from, h.len), cs[i].code;
    var field := Trunc32(RipDelta(h, from, to));
    assert code == src[..f] + LE(4, field) + src[f + 4..];
    assert Read(m, to, h.len) == code;
    var w, w' := Read(m0, from, WINDOW), Read(m, to, WINDOW);
    forall k | 0 <= k < h.len && !(f <= k < f + 4)
      ensures w[k] == w'[k]
    {
      assert w[k] == src[k] && w'[k] == code[k];
    }
    WindowField(m, to, code, f, f + 4);
    assert code[f..f + 4] == LE(4, field);
    Field32(field, RipDelta(h, from, to));
  }

  lemma Field32(field: nat, x: int)
    requires field == Trunc32(x)
    ensures FromLE(LE(4, field)) == field
  {
    Pow256Values();
    LERoundTrip(4, field);
  }

  lemma RipSimulated<D(!new)>(c: Machine<D>, m0: Mem, m: Mem, target: nat, slot: nat, cs: seq<Copy>, i: nat, d: D)
    requires Built(c, m0, m, target, slot, cs) && i < |cs| && !Closing(cs[i])
    requires Classify(c.arch, cs[i].h) == RipOperand && OperandReached(c.arch, m0, m, target, slot, cs[i])
    ensures Matches(c, m, target, slot, cs, Step(c, m0, target + cs[i].oldPos, d), Step(c, m, slot + cs[i].newPos, d))
  {
    hide Matches, Ends, Chained, BranchesKeepDistance, DecoderOk, Blank, CopyOk, SlotHolds, FitsInt32;
    var h, from, to, f := cs[i].h, target + cs[i].oldPos, slot + cs[i].newPos, RipField(cs[i].h);
    RipCopied(c, m0, m, target, slot, cs, i);
    var h' := h.(disp32 := Trunc32(RipDelta(h, from, to)));
    var ea := RipAddress(c.arch, h, from);
    SextTrunc(RipDelta(h, from, to));
    assert RipAddress(c.arch, h', to) == ea;
    var bs, bs' := Read(m0, from, h.len), Read(m, to, h.len);
    var end, end' := Wrap(c.arch, from + h.len), Wrap(c.arch, to + h.len);
    RipStepAt(c, m0, target, slot, cs[i], d);
    assert Step(c, m, to, d) == RipStep(c, m, h', bs', ea, end', d);
    if i + 1 == |cs| {
      LastIsFinal(c, m0, m, target, slot, cs, i);
    }
    if RipTransfer(h) {
      ReadAgree(m0, m, ea, 8);
      TransferMatches(c, m0, m, target, slot, cs, i, d, RipStep(c, m0, h, bs, ea, end, d),
        RipStep(c, m, h', bs', ea, end', d));
    } else {
      FinishMatches(c, m0, m, target, slot, cs, i, c.exec(Blank(bs, f), ea, d));
    }
  }

  lemma RipStepAt<D>(c: Machine<D>, m0: Mem, target: nat, slot: nat, x: Copy, d: D)
    requires CopyOk(c.arch, c.decode, m0, target, slot, x) && Classify(c.arch, x.h) == RipOperand
    ensures var from := target + x.oldPos;
            Step(c, m0, from, d) ==
            RipStep(c, m0, x.h, Read(m0, from, x.h.len), RipAddress(c.arch, x.h, from), Wrap(c.arch, from + x.h.len), d)
  {
    hide Translate, JmpCode, RipStep, RipAddress, Read;
  }

  lemma TransferMatches<D(!new)>(c: Machine<D>, m0: Mem, m: Mem, target: nat, slot: nat, cs: seq<Copy>, i: nat, d: D,
                                 o: Out<D>, t: Out<D>)
    requires Built(c, m0, m, target, slot, cs) && i < |cs| && RipTransfer(cs[i].h)
    requires RegField(cs[i].h) == 4 || i + 1 < |cs|
    requires o.ip == t.ip && !o.direct && o.data == t.data == d
    requires o.push == if RegField(cs[i].h) == 4 then None else Some(Wrap(c.arch, target + cs[i].oldPos + cs[i].h.len))
    requires t.push == if RegField(cs[i].h) == 4 then None else Some(Wrap(c.arch, slot + cs[i].newPos + |cs[i].code|))
    ensures Matches(c, m, target, slot, cs, o, t)
  {
    if RegField(cs[i].h) == 4 {
      ExactMatches(c, m, target, slot, cs, o, t);
    } else {
      EndMaps(c, m0, m, target, slot, cs, i);
      CallMatches(c, m, target, slot, cs, i + 1, o, t);
    }
  }

  // ---------- The simulation ----------

  /**
   Each original step from a copied boundary is matched by the slot code at the boundary's copy:
   it goes on at the copy of the next boundary or leaves the slot at exactly the same address,
   and pushes a return address that leads to the corresponding copy.
   */
  lemma StepSimulated<D(!new)>(c: Machine<D>, m0: Mem, m: Mem, target: nat, slot: nat, cs: seq<Copy>, i: nat, d: D)
    requires Built(c, m0, m, target, slot, cs) && JMP_REL <= slot
    requires i < |cs| && !Closing(cs[i]) && Movable(c.arch, m0, m, target, slot, cs, i)
    ensures Simulates(c, m, target, slot, cs, slot + cs[i].newPos, d, Step(c, m0, target + cs[i].oldPos, d))
  {
    hide Step, Matches, Layout, SlotHolds, BranchLands, OperandReached, Dest, DecoderOk;
    var k := Classify(c.arch, cs[i].h);
    if k == Plain || k == Ret {
      PlainSimulated(c, m0, m, target, slot, cs, i, d);
    } else if k == RipOperand {
      RipSimulated(c, m0, m, target, slot, cs, i, d);
    } else if k == CallRel {
      CallSimulated(c, m0, m, target, slot, cs, i, d);
    } else if InternalBranch(c.arch, target, cs[i]) {
      InternalSimulated(c, m0, m, target, slot, cs, i, d);
    } else if k == LoopShort {
      NoExternalLoop(c, m0, m, target, slot, cs, i);
    } else if k == JmpNear || k == JmpShort {
      JmpSimulated(c, m0, m, target, slot, cs, i, d);
    } else {
      JccSimulated(c, m0, m, target, slot, cs, i, d);
    }
  }

  lemma NoExternalLoop<D>(c: Machine<D>, m0: Mem, m: Mem, target: nat, slot: nat, cs: seq<Copy>, i: nat)
    requires Built(c, m0, m, target, slot, cs) && i < |cs| && !Closing(cs[i])
    ensures Classify(c.arch, cs[i].h) == LoopShort ==> InternalBranch(c.arch, target, cs[i])
  {
    hide Ends, Chained, BranchesKeepDistance, SlotHolds, Dest;
    assert CopyOk(c.arch, c.decode, m0, target, slot, cs[i]);
  }

  /** The closing jump leads from the last copy to where the original code goes on. */
  lemma ClosingRuns<D>(c: Machine<D>, m0: Mem, m: Mem, target: nat, slot: nat, cs: seq<Copy>, i: nat, d: D)
    requires Built(c, m0, m, target, slot, cs) && i < |cs| && Closing(cs[i])
    ensures var o := Step(c, m, slot + cs[i].newPos, d); o.ip == target + cs[i].oldPos && Silent(o, d)
  {
    hide Ends, Chained, BranchesKeepDistance, JmpCode, Step, Read;
    assert CopyOk(c.arch, c.decode, m0, target, slot, cs[i]);
    SlotRoom(c, m0, m, target, slot, cs, i);
    BoundariesFit(c.arch, c.decode, m0, target, slot, cs);
    JmpCodeSize(c.arch, slot + cs[i].newPos, target + cs[i].oldPos);
    JmpCodeRuns(c, m, slot + cs[i].newPos, target + cs[i].oldPos, d);
  }

  // ---------- Whole runs ----------

  /** Where control leaves the copied code, the return address pushed when it leaves by a call, and the state. */
  datatype Exit<D> = Exit(ip: nat, push: Option<nat>, data: D)

  function BoundaryAt(target: nat, cs: seq<Copy>, ip: nat, from: nat): Option<nat>
    requires from <= |cs|
    ensures BoundaryAt(target, cs, ip, from).Some? ==>
              var k := BoundaryAt(target, cs, ip, from).value; k < |cs| && ip == target + cs[k].oldPos
    ensures BoundaryAt(target, cs, ip, from).None? ==> forall k :: from <= k < |cs| ==> ip != target + cs[k].oldPos
    decreases |cs| - from
  {
    if from == |cs| then None
    else if ip == target + cs[from].oldPos then Some(from)
    else BoundaryAt(target, cs, ip, from + 1)
  }

  /**
   The original code, run from copied boundary i for at most n instructions, until control leaves the copied
   instructions.
   */
  function OriginalRun<D>(c: Machine<D>, m0: Mem, target: nat, cs: seq<Copy>, i: nat, d: D, n: nat): Option<Exit<D>>
    requires i < |cs|
    decreases n
  {
    if n == 0 then None
    else if Closing(cs[i]) then Some(Exit(target + cs[i].oldPos, None, d))
    else
      var o := Step(c, m0, target + cs[i].oldPos, d);
      var k := BoundaryAt(target, cs, o.ip, 0);
      if o.push.None? && o.direct && k.Some? then OriginalRun(c, m0, target, cs, k.value, o.data, n - 1)
      else Some(Exit(o.ip, o.push, o.data))
  }

  /** The slot code, run from ip for at most n instructions, until control leaves the slot. */
  function SlotRun<D>(c: Machine<D>, m: Mem, slot: nat, cs: seq<Copy>, ip: nat, d: D, n: nat): Option<Exit<D>>
    requires cs != []
    decreases n
  {
    if n == 0 then None
    else
      var t := Step(c, m, ip, d);
      if t.push.None? && InSlot(slot, cs, t.ip) then SlotRun(c, m, slot, cs, t.ip, t.data, n - 1)
      else Some(Exit(t.ip, t.push, t.data))
  }

  lemma {:induction false} SlotRunMore<D>(c: Machine<D>, m: Mem, slot: nat, cs: seq<Copy>, ip: nat, d: D, n: nat,
                                          more: nat)
    requires cs != [] && n <= more && SlotRun(c, m, slot, cs, ip, d, n).Some?
    ensures SlotRun(c, m, slot, cs, ip, d, more) == SlotRun(c, m, slot, cs, ip, d, n)
    decreases n
  {
    hide Step;
    var t := Step(c, m, ip, d);
    if t.push.None? && InSlot(slot, cs, t.ip) {
      SlotRunMore(c, m, slot, cs, t.ip, t.data, n - 1, more - 1);
    }
  }

  ghost predicate SameExit<D(!new)>(c: Machine<D>, m: Mem, target: nat, slot: nat, cs: seq<Copy>, e: Exit<D>,
                                    x: Option<Exit<D>>) {
    && x.Some?
    && x.value.ip == e.ip && x.value.data == e.data
    && (e.push.None? <==> x.value.push.None?)
    && (e.push.Some? ==> SameReturn(c, m, target, slot, cs, e.push.value, x.value.push.value))
  }

  lemma CopyInSlot<D>(c: Machine<D>, m0: Mem, m: Mem, target: nat, slot: nat, cs: seq<Copy>, k: nat)
    requires Built(c, m0, m, target, slot, cs) && k < |cs|
    ensures InSlot(slot, cs, slot + cs[k].newPos)
  {
    hide CopyOk, Ends, SlotHolds, BranchesKeepDistance, DecoderLocal, DecoderRip, DecoderTemplates;
    LayoutIsShaped(c.arch, c.decode, m0, target, slot, cs);
    ShapeFits(cs);
  }

  /** A step in the slot that corresponds to the step from boundary i, and the rest of the run. */
  lemma {:induction false} StepThenRun<D(!new)>(c: Machine<D>, m0: Mem, m: Mem, target: nat, slot: nat, cs: seq<Copy>,
                                                i: nat, at: nat, d: D, n: nat, fuel: nat)
    requires Built(c, m0, m, target, slot, cs) && JMP_REL <= slot
    requires forall k :: 0 <= k < |cs| && !Closing(cs[k]) ==> Movable(c.arch, m0, m, target, slot, cs, k)
    requires i < |cs| && !Closing(cs[i])
    requires var e := OriginalRun(c, m0, target, cs, i, d, n); e.Some? && !InSlot(slot, cs, e.value.ip)
    requires Matches(c, m, target, slot, cs, Step(c, m0, target + cs[i].oldPos, d), Step(c, m, at, d))
    requires fuel >= 2 * n - 1
    ensures SameExit(c, m, target, slot, cs, OriginalRun(c, m0, target, cs, i, d, n).value,
            SlotRun(c, m, slot, cs, at, d, fuel))
    decreases n, 0
  {
    hide Step, Built, Movable, InSlot, SameReturn;
    var o, t := Step(c, m0, target + cs[i].oldPos, d), Step(c, m, at, d);
    var b := BoundaryAt(target, cs, o.ip, 0);
    if o.push.None? && o.direct && b.Some? {
      if o.ip == t.ip && !Internal(target, o.ip) {
        assert Closing(cs[b.value]);
      } else {
        var k :| 0 <= k < |cs| && o.ip == target + cs[k].oldPos && t.ip == slot + cs[k].newPos;
        SameBoundary(c, m0, m, target, slot, cs, k, b.value);
        CopyInSlot(c, m0, m, target, slot, cs, k);
        RunSimulated(c, m0, m, target, slot, cs, k, o.data, n - 1);
        SlotRunMore(c, m, slot, cs, t.ip, t.data, 2 * (n - 1), fuel - 1);
      }
    }
  }

  lemma SameBoundary<D>(c: Machine<D>, m0: Mem, m: Mem, target: nat, slot: nat, cs: seq<Copy>, j: nat, k: nat)
    requires Built(c, m0, m, target, slot, cs) && j < |cs| && k < |cs| && cs[j].oldPos == cs[k].oldPos
    ensures j == k
  {
    hide CopyOk, Ends, SlotHolds, BranchesKeepDistance, DecoderLocal, DecoderRip, DecoderTemplates;
    LayoutIsShaped(c.arch, c.decode, m0, target, slot, cs);
    if j < k {
      Increasing(cs, j, k);
    } else if k < j {
      Increasing(cs, k, j);
    }
  }

  /**
   Running the trampoline from a boundary's copy is running the original code from the boundary:
   control leaves at the same address with the same state, and a call leaves with a return address
   that continues in the slot where the original would continue.
   */
  lemma {:induction false} RunSimulated<D(!new)>(c: Machine<D>, m0: Mem, m: Mem, target: nat, slot: nat, cs: seq<Copy>,
                                                 i: nat, d: D, n: nat)
    requires Built(c, m0, m, target, slot, cs) && JMP_REL <= slot
    requires forall k :: 0 <= k < |cs| && !Closing(cs[k]) ==> Movable(c.arch, m0, m, target, slot, cs, k)
    requires i < |cs|
    requires var e := OriginalRun(c, m0, target, cs, i, d, n); e.Some? && !InSlot(slot, cs, e.value.ip)
    ensures SameExit(c, m, target, slot, cs, OriginalRun(c, m0, target, cs, i, d, n).value,
                     SlotRun(c, m, slot, cs, slot + cs[i].newPos, d, 2 * n))
    decreases n, 1
  {
    hide Step, Built, Movable, InSlot, SameReturn, Matches;
    var at := slot + cs[i].newPos;
    if Closing(cs[i]) {
      ClosingRuns(c, m0, m, target, slot, cs, i, d);
    } else {
      StepSimulated(c, m0, m, target, slot, cs, i, d);
      if Matches(c, m, target, slot, cs, Step(c, m0, target + cs[i].oldPos, d), Step(c, m, at, d)) {
        StepThenRun(c, m0, m, target, slot, cs, i, at, d, n, 2 * n);
      } else {
        StepThenRun(c, m0, m, target, slot, cs, i, Step(c, m, at, d).ip, d, n, 2 * n - 1);
      }
    }
  }
}
