/**
 Which code can be hooked, said without the translation: a scan over the original instructions with
 the opcodes and sizes written out. The relocation loop accepts exactly this code.
 */
module TrampolineAccept {
  import opened Bytes
  import opened Cpu
  import opened TrampolineSpec
  import opened TrampolineBuilder
  import opened TrampolineCode

  // ---------- Instructions ----------

  /** ModR/M says that the operand is relative to RIP. */
  predicate RipRelative(arch: Arch, h: Hde) {
    && arch == X64
    && (h.modrm == 0x05 || h.modrm == 0x0D || h.modrm == 0x15 || h.modrm == 0x1D
        || h.modrm == 0x25 || h.modrm == 0x2D || h.modrm == 0x35 || h.modrm == 0x3D)
  }

  predicate DirectCall(arch: Arch, h: Hde) {
    !RipRelative(arch, h) && h.opcode == 0xE8
  }

  predicate DirectJump(arch: Arch, h: Hde) {
    !RipRelative(arch, h) && (h.opcode == 0xE9 || h.opcode == 0xEB)
  }

  predicate ConditionalJump(arch: Arch, h: Hde) {
    && !RipRelative(arch, h)
    && (0x70 <= h.opcode <= 0x7F || (h.opcode == 0x0F && 0x80 <= h.opcode2 <= 0x8F))
  }

  /** LOOPNZ, LOOPZ, LOOP and JCXZ. */
  predicate LoopJump(arch: Arch, h: Hde) {
    !RipRelative(arch, h) && 0xE0 <= h.opcode <= 0xE3
  }

  predicate Jumps(arch: Arch, h: Hde) {
    DirectJump(arch, h) || ConditionalJump(arch, h) || LoopJump(arch, h)
  }

  /** Where the jump h at ip goes: one byte of displacement for EB, 7x and Ex, four for the others. */
  function JumpGoal(arch: Arch, h: Hde, ip: int): nat {
    var short := h.opcode == 0xEB || 0x70 <= h.opcode <= 0x7F || 0xE0 <= h.opcode <= 0xE3;
    var disp :=
      if short then (if h.imm8 < 0x80 then h.imm8 else h.imm8 - 0x100)
      else (if h.imm32 < 0x8000_0000 then h.imm32 else h.imm32 - 0x1_0000_0000);
    if arch == X64 then (ip + h.len + disp) % 0x1_0000_0000_0000_0000 else (ip + h.len + disp) % 0x1_0000_0000
  }

  /** A jump among the first five bytes that stays in them. */
  predicate Inside(arch: Arch, target: nat, h: Hde, off: nat) {
    off < 5 && Jumps(arch, h) && target <= JumpGoal(arch, h, target + off) < target + 5
  }

  /** How many bytes the trampoline has for the instruction at off. */
  function NewSize(arch: Arch, target: nat, h: Hde, off: nat): nat {
    if off >= 5 then (if arch == X64 then 14 else 5)
    else if DirectCall(arch, h) then (if arch == X64 then 16 else 5)
    else if Inside(arch, target, h, off) then h.len
    else if DirectJump(arch, h) then (if arch == X64 then 14 else 5)
    else if ConditionalJump(arch, h) then (if arch == X64 then 16 else 6)
    else h.len
  }

  /** Nothing behind this instruction is needed; `farthest` is where the jumps so far have gone at most. */
  predicate Last(arch: Arch, target: nat, h: Hde, off: nat, farthest: nat) {
    || off >= 5
    || (RipRelative(arch, h) && h.opcode == 0xFF && h.modrm == 0x25)
    || (DirectJump(arch, h) && !Inside(arch, target, h, off) && farthest <= target + off)
    || (!RipRelative(arch, h) && (h.opcode == 0xC2 || h.opcode == 0xC3) && farthest <= target + off)
  }

  function Farther(arch: Arch, target: nat, h: Hde, off: nat, farthest: nat): nat {
    if Inside(arch, target, h, off) && farthest < JumpGoal(arch, h, target + off) then JumpGoal(arch, h, target + off)
    else farthest
  }

  // ---------- The scan ----------

  /** Where the instructions start that have to be looked at, from off on. */
  function Starts(arch: Arch, decode: Decoder, m: Mem, target: nat, off: nat, farthest: nat): (r: seq<nat>)
    requires DecoderSane(arch, decode)
    ensures r != [] && r[0] == off
    decreases if off < 5 then 5 - off else 0
  {
    var h := InstrAt(decode, m, target, off);
    var far := Farther(arch, target, h, off, farthest);
    [off] + if Last(arch, target, h, off, far) then [] else Starts(arch, decode, m, target, off + h.len, far)
  }

  /** The bytes needed for all of them. */
  function TotalSize(arch: Arch, decode: Decoder, m: Mem, target: nat, offs: seq<nat>): nat {
    if offs == [] then 0
    else
      NewSize(arch, target, InstrAt(decode, m, target, offs[0]), offs[0]) +
      TotalSize(arch, decode, m, target, offs[1..])
  }

  /** The instruction at off can be decoded, and is no LOOP or JCXZ out of the first five bytes. */
  predicate CanMove(arch: Arch, decode: Decoder, m: Mem, target: nat, off: nat) {
    var h := InstrAt(decode, m, target, off);
    !h.error && !(off < 5 && LoopJump(arch, h) && !Inside(arch, target, h, off))
  }

  /** The instruction at off keeps its size. */
  predicate KeepsSize(arch: Arch, decode: Decoder, m: Mem, target: nat, off: nat) {
    var h := InstrAt(decode, m, target, off);
    NewSize(arch, target, h, off) == h.len
  }

  /** A jump at `from` that stays inside passes over off. */
  predicate JumpsOver(arch: Arch, decode: Decoder, m: Mem, target: nat, from: nat, off: nat) {
    var h := InstrAt(decode, m, target, from);
    Inside(arch, target, h, from) && target + off < JumpGoal(arch, h, target + from)
  }

  /**
   The code at target can be relocated: every instruction can be moved, none that an earlier or the same jump
   passes over changes its size, and together they fit in 50 bytes, or 32 on x86.
   */
  ghost predicate Acceptable(arch: Arch, decode: Decoder, m: Mem, target: nat)
    requires DecoderSane(arch, decode)
  {
    var ss := Starts(arch, decode, m, target, 0, 0);
    && (forall i :: 0 <= i < |ss| ==> CanMove(arch, decode, m, target, ss[i]))
    && (forall i, j :: 0 <= j <= i < |ss| && JumpsOver(arch, decode, m, target, ss[j], ss[i]) ==>
          KeepsSize(arch, decode, m, target, ss[i]))
    && TotalSize(arch, decode, m, target, ss) <= if arch == X64 then 50 else 32
  }

  // ---------- The loop, one instruction at a time ----------

  /** The rest of the code can be relocated when n bytes are in use. */
  predicate AcceptFrom(arch: Arch, decode: Decoder, m: Mem, target: nat, off: nat, farthest: nat, n: nat)
    requires DecoderSane(arch, decode)
    decreases if off < 5 then 5 - off else 0
  {
    var h := InstrAt(decode, m, target, off);
    var far := Farther(arch, target, h, off, farthest);
    var size := NewSize(arch, target, h, off);
    && CanMove(arch, decode, m, target, off)
    && (target + off < far ==> size == h.len)
    && n + size <= (if arch == X64 then 50 else 32)
    && (Last(arch, target, h, off, far) || AcceptFrom(arch, decode, m, target, off + h.len, far, n + size))
  }

  /** What holds of the instructions from off on, seen together. */
  ghost predicate AcceptAll(arch: Arch, decode: Decoder, m: Mem, target: nat, ss: seq<nat>, farthest: nat, n: nat) {
    && (forall i :: 0 <= i < |ss| ==> CanMove(arch, decode, m, target, ss[i]))
    && (forall i, j :: 0 <= j <= i < |ss| && JumpsOver(arch, decode, m, target, ss[j], ss[i]) ==>
          KeepsSize(arch, decode, m, target, ss[i]))
    && (forall i :: 0 <= i < |ss| && target + ss[i] < farthest ==> KeepsSize(arch, decode, m, target, ss[i]))
    && n + TotalSize(arch, decode, m, target, ss) <= if arch == X64 then 50 else 32
  }

  lemma {:induction false} AllAtOnce(arch: Arch, decode: Decoder, m: Mem, target: nat, off: nat, farthest: nat, n: nat)
    requires DecoderSane(arch, decode)
    ensures AcceptFrom(arch, decode, m, target, off, farthest, n) <==>
            AcceptAll(arch, decode, m, target, Starts(arch, decode, m, target, off, farthest), farthest, n)
    decreases if off < 5 then 5 - off else 0
  {
    hide Last, Farther, NewSize, DecoderSane, InstrAt, CanMove, AcceptAll;
    var h := InstrAt(decode, m, target, off);
    var far := Farther(arch, target, h, off, farthest);
    var size := NewSize(arch, target, h, off);
    var ss := Starts(arch, decode, m, target, off, farthest);
    StartsLength(arch, decode, m, target, off, far);
    if Last(arch, target, h, off, far) {
      assert ss == [off] + [];
      OneMore(arch, decode, m, target, off, [], farthest, n);
      NoneLeft(arch, decode, m, target, far, n + size);
    } else {
      var rest := Starts(arch, decode, m, target, off + h.len, far);
      AllAtOnce(arch, decode, m, target, off + h.len, far, n + size);
      OneMore(arch, decode, m, target, off, rest, farthest, n);
    }
  }

  lemma StartsLength(arch: Arch, decode: Decoder, m: Mem, target: nat, off: nat, farthest: nat)
    requires DecoderSane(arch, decode)
    ensures var h := InstrAt(decode, m, target, off);
            1 <= h.len && (off >= 5 ==> Last(arch, target, h, off, farthest))
  {
  }

  lemma NoneLeft(arch: Arch, decode: Decoder, m: Mem, target: nat, farthest: nat, n: nat)
    ensures AcceptAll(arch, decode, m, target, [], farthest, n) <==> n <= if arch == X64 then 50 else 32
  {
  }

  /** The first instruction, and those behind it. */
  lemma OneMore(arch: Arch, decode: Decoder, m: Mem, target: nat, off: nat, rest: seq<nat>, farthest: nat, n: nat)
    ensures var h := InstrAt(decode, m, target, off);
            var far, size := Farther(arch, target, h, off, farthest), NewSize(arch, target, h, off);
            AcceptAll(arch, decode, m, target, [off] + rest, farthest, n) <==>
            && CanMove(arch, decode, m, target, off)
            && (target + off < far ==> size == h.len)
            && AcceptAll(arch, decode, m, target, rest, far, n + size)
  {
    hide NewSize, InstrAt, CanMove, Farther, AcceptAll;
    var h := InstrAt(decode, m, target, off);
    var far, size := Farther(arch, target, h, off, farthest), NewSize(arch, target, h, off);
    if AcceptAll(arch, decode, m, target, [off] + rest, farthest, n) {
      FirstOfAll(arch, decode, m, target, off, rest, farthest, n);
    }
    if CanMove(arch, decode, m, target, off) && (target + off < far ==> size == h.len)
       && AcceptAll(arch, decode, m, target, rest, far, n + size) {
      RestOfAll(arch, decode, m, target, off, rest, farthest, n);
    }
  }

  lemma FartherThan(arch: Arch, decode: Decoder, m: Mem, target: nat, off: nat, farthest: nat)
    ensures var far := Farther(arch, target, InstrAt(decode, m, target, off), off, farthest);
            forall o: nat :: target + o < far <==> target + o < farthest || JumpsOver(arch, decode, m, target, off, o)
  {
    hide Inside, InstrAt;
  }

  lemma FirstOfAll(arch: Arch, decode: Decoder, m: Mem, target: nat, off: nat, rest: seq<nat>, farthest: nat, n: nat)
    requires AcceptAll(arch, decode, m, target, [off] + rest, farthest, n)
    ensures var h := InstrAt(decode, m, target, off);
            var far, size := Farther(arch, target, h, off, farthest), NewSize(arch, target, h, off);
            && CanMove(arch, decode, m, target, off)
            && (target + off < far ==> size == h.len)
            && AcceptAll(arch, decode, m, target, rest, far, n + size)
  {
    FartherThan(arch, decode, m, target, off, farthest);
    hide NewSize, InstrAt, CanMove, Farther, JumpsOver;
    var ss := [off] + rest;
    assert ss[0] == off && ss[1..] == rest;
    assert forall i :: 0 <= i < |rest| ==> rest[i] == ss[i + 1];
  }

  lemma RestOfAll(arch: Arch, decode: Decoder, m: Mem, target: nat, off: nat, rest: seq<nat>, farthest: nat, n: nat)
    requires var h := InstrAt(decode, m, target, off);
             var far, size := Farther(arch, target, h, off, farthest), NewSize(arch, target, h, off);
             && CanMove(arch, decode, m, target, off)
             && (target + off < far ==> size == h.len)
             && AcceptAll(arch, decode, m, target, rest, far, n + size)
    ensures AcceptAll(arch, decode, m, target, [off] + rest, farthest, n)
  {
    FartherThan(arch, decode, m, target, off, farthest);
    hide NewSize, InstrAt, CanMove, Farther, JumpsOver;
    var ss := [off] + rest;
    assert ss[0] == off && ss[1..] == rest;
    assert forall i :: 1 <= i < |ss| ==> ss[i] == rest[i - 1];
    forall i, j | 0 <= j <= i < |ss| && JumpsOver(arch, decode, m, target, ss[j], ss[i])
      ensures KeepsSize(arch, decode, m, target, ss[i])
    {
      if j > 0 {
        assert ss[j] == rest[j - 1] && ss[i] == rest[i - 1];
      } else if i > 0 {
        assert ss[i] == rest[i - 1];
      }
    }
    forall i | 0 <= i < |ss|
      ensures CanMove(arch, decode, m, target, ss[i])
      ensures target + ss[i] < farthest ==> KeepsSize(arch, decode, m, target, ss[i])
    {
      if i > 0 {
        assert ss[i] == rest[i - 1];
      }
    }
  }

  // ---------- The loop and the scan agree ----------

  /** What a sane decoder reports. */
  predicate SaneReport(arch: Arch, h: Hde) {
    1 <= h.len <= 15 && (h.opcode2 != 0 ==> h.opcode == 0x0F) && (IsRip(arch, h) ==> h.immLen + 6 <= h.len)
  }

  lemma SaneAt(arch: Arch, decode: Decoder, m: Mem, target: nat, off: nat)
    requires DecoderSane(arch, decode)
    ensures SaneReport(arch, InstrAt(decode, m, target, off))
  {
  }

  lemma ClassMeans(arch: Arch, h: Hde)
    requires SaneReport(arch, h)
    ensures IsRip(arch, h) <==> RipRelative(arch, h)
    ensures var k := Classify(arch, h);
            && (k == RipOperand <==> RipRelative(arch, h)) && (k == CallRel <==> DirectCall(arch, h))
            && (k == JmpNear || k == JmpShort <==> DirectJump(arch, h))
            && (k == JccNear || k == JccShort <==> ConditionalJump(arch, h))
            && (k == LoopShort <==> LoopJump(arch, h)) && (IsBranch(k) <==> Jumps(arch, h))
            && (k == Ret <==> !RipRelative(arch, h) && (h.opcode == 0xC2 || h.opcode == 0xC3))
            && (Jumps(arch, h) ==>
                  (IsShort(k) <==> h.opcode == 0xEB || 0x70 <= h.opcode <= 0x7F || 0xE0 <= h.opcode <= 0xE3))
    ensures RipJump(arch, h) <==> RipRelative(arch, h) && h.opcode == 0xFF && h.modrm == 0x25
  {
  }

  lemma GoalMeans(arch: Arch, h: Hde, ip: int)
    requires SaneReport(arch, h) && Jumps(arch, h)
    ensures Dest(arch, h, ip) == JumpGoal(arch, h, ip)
  {
    ClassMeans(arch, h);
    hide Classify, IsShort, Jumps;
  }

  /** Where an internal branch goes, and whether it ends the function. */
  lemma InsideMeans(arch: Arch, target: nat, h: Hde, o: nat, n: nat, code: seq<Byte>, far: nat)
    requires SaneReport(arch, h)
    ensures InternalDest(arch, target, Copy(o, n, h, code)) ==
            if Inside(arch, target, h, o) then JumpGoal(arch, h, target + o) else 0
    ensures Finishes(arch, target, h, o, far) <==> Last(arch, target, h, o, far)
  {
    ClassMeans(arch, h);
    if Jumps(arch, h) {
      GoalMeans(arch, h, target + o);
    }
    hide Classify, JumpGoal, Dest, IsRip, RipRelative, IsBranch, RipJump;
  }

  /** When the instruction can be translated, and how long the result is. */
  lemma SizeMeans(arch: Arch, target: nat, slot: nat, m: Mem, h: Hde, o: nat, n: nat)
    requires SaneReport(arch, h)
    ensures var code := CodeAt(arch, target, slot, m, h, o, n);
            && (code.Some? <==> !(o < 5 && LoopJump(arch, h) && !Inside(arch, target, h, o)))
            && (code.Some? ==> |code.value| == NewSize(arch, target, h, o))
  {
    hide Classify, JumpGoal, Dest, IsRip, RipRelative, Sext32, Trunc32, LE, Read, JmpCode, CallCode, JccCode, IsBranch,
         IsShort, RipJump;
    ClassMeans(arch, h);
    if Jumps(arch, h) {
      GoalMeans(arch, h, target + o);
    }
    TemplateSizes(arch, slot + n, if Cond(h) < 16 then Cond(h) else 0, Dest(arch, h, target + o));
    TemplateSizes(arch, slot + n, 0, target + o);
  }

  lemma TemplateSizes(arch: Arch, at: int, cond: nat, dest: nat)
    requires cond < 16
    ensures |JmpCode(arch, at, dest)| == (if arch == X64 then 14 else 5)
    ensures |CallCode(arch, at, dest)| == (if arch == X64 then 16 else 5)
    ensures |JccCode(arch, at, cond, dest)| == (if arch == X64 then 16 else 6)
  {
  }

  /** One round of the loop. */
  lemma NextMeans(arch: Arch, decode: Decoder, m: Mem, target: nat, slot: nat, cs: seq<Copy>)
    requires DecoderSane(arch, decode) && Shaped(cs) && (cs != [] ==> !Closing(cs[|cs| - 1]))
    ensures var o, n := NextOld(cs), NextNew(cs);
            var h := InstrAt(decode, m, target, o);
            var far := Farther(arch, target, h, o, FarthestInternal(arch, target, cs));
            var next := NextCopy(arch, decode, m, target, slot, cs);
            && (next.Some? <==>
                  && CanMove(arch, decode, m, target, o)
                  && (target + o < far ==> NewSize(arch, target, h, o) == h.len)
                  && n + NewSize(arch, target, h, o) <= if arch == X64 then 50 else 32)
            && (next.Some? ==>
                  && next.value.oldPos == o && next.value.newPos == n && next.value.h == h
                  && |next.value.code| == NewSize(arch, target, h, o)
                  && FarthestInternal(arch, target, cs + [next.value]) == far
                  && (Finishes(arch, target, h, o, far) <==> Last(arch, target, h, o, far)))
  {
    hide SaneReport, Inside, LoopJump, JumpGoal, CodeAt, FarthestInternal, InternalDest, Finishes, Last, NewSize,
         DecoderSane, Read, NextOld, NextNew, Shaped;
    var o, n := NextOld(cs), NextNew(cs);
    var h := InstrAt(decode, m, target, o);
    var far := Farther(arch, target, h, o, FarthestInternal(arch, target, cs));
    SaneAt(arch, decode, m, target, o);
    FewCopies(cs);
    SizeMeans(arch, target, slot, m, h, o, n);
    var code := CodeAt(arch, target, slot, m, h, o, n);
    if code.Some? {
      InsideMeans(arch, target, h, o, n, code.value, far);
      FarthestAppended(arch, target, cs, Copy(o, n, h, code.value));
    }
  }

  /** Before the first closing copy there are at most five. */
  lemma FewCopies(cs: seq<Copy>)
    requires Shaped(cs) && (cs != [] ==> !Closing(cs[|cs| - 1]))
    ensures |cs| <= 5
  {
    if |cs| >= 2 {
      Increasing(cs, 0, |cs| - 1);
    }
  }

  lemma ShapedMore(cs: seq<Copy>, c: Copy)
    requires Shaped(cs) && (cs != [] ==> !Closing(cs[|cs| - 1]))
    requires c.oldPos == NextOld(cs) && c.newPos == NextNew(cs) && 1 <= c.h.len <= 15 && 1 <= |c.code|
    requires c.oldPos < JMP_REL
    ensures !Closing((cs + [c])[|cs + [c]| - 1])
    ensures Shaped(cs + [c]) && NextOld(cs + [c]) == c.oldPos + c.h.len && NextNew(cs + [c]) == c.newPos + |c.code|
  {
    assert forall i :: 0 <= i < |cs| ==> (cs + [c])[i] == cs[i];
  }

  /** The relocation, continued from cs, has the starts ss and the sizes that the scan says. */
  ghost predicate Continues(arch: Arch, decode: Decoder, m: Mem, target: nat, cs: seq<Copy>, ss: seq<nat>,
                            r: seq<Copy>) {
    && |r| == |cs| + |ss|
    && forall i :: 0 <= i < |ss| ==>
         && r[|cs| + i].oldPos == ss[i]
         && |r[|cs| + i].code| == NewSize(arch, target, InstrAt(decode, m, target, ss[i]), ss[i])
  }

  lemma {:induction false} LoopIsScan(arch: Arch, decode: Decoder, m: Mem, target: nat, slot: nat, cs: seq<Copy>)
    requires DecoderSane(arch, decode) && Shaped(cs) && (cs != [] ==> !Closing(cs[|cs| - 1]))
    ensures var o, n, far := NextOld(cs), NextNew(cs), FarthestInternal(arch, target, cs);
            var r := Relocate(arch, decode, m, target, slot, cs);
            && (r.Some? <==> AcceptFrom(arch, decode, m, target, o, far, n))
            && (r.Some? ==> Continues(arch, decode, m, target, cs, Starts(arch, decode, m, target, o, far), r.value))
    decreases if NextOld(cs) < JMP_REL then JMP_REL - NextOld(cs) else 0
  {
    hide *;
    NextMeans(arch, decode, m, target, slot, cs);
    RelocateRound(arch, decode, m, target, slot, cs);
    var o, n, before := NextOld(cs), NextNew(cs), FarthestInternal(arch, target, cs);
    var h := InstrAt(decode, m, target, o);
    var far := Farther(arch, target, h, o, before);
    AcceptNext(arch, decode, m, target, o, before, n);
    StartsNext(arch, decode, m, target, o, before);
    var next := NextCopy(arch, decode, m, target, slot, cs);
    if next.Some? {
      var c := next.value;
      if Last(arch, target, h, o, far) {
        ContinuesLast(arch, decode, m, target, cs, c);
      } else {
        NotLast(arch, decode, m, target, o, far);
        ShapedMore(cs, c);
        LoopIsScan(arch, decode, m, target, slot, cs + [c]);
        RelocateKeeps(arch, decode, m, target, slot, cs + [c]);
        var r := Relocate(arch, decode, m, target, slot, cs + [c]);
        if r.Some? {
          ContinuesOne(arch, decode, m, target, cs, c, Starts(arch, decode, m, target, o + h.len, far), r.value);
        }
      }
    }
  }

  /** One unfolding of the loop, of the conditions, and of the starts. */
  lemma AcceptNext(arch: Arch, decode: Decoder, m: Mem, target: nat, off: nat, farthest: nat, n: nat)
    requires DecoderSane(arch, decode)
    ensures var h := InstrAt(decode, m, target, off);
            var far, size := Farther(arch, target, h, off, farthest), NewSize(arch, target, h, off);
            AcceptFrom(arch, decode, m, target, off, farthest, n) <==>
            && CanMove(arch, decode, m, target, off)
            && (target + off < far ==> size == h.len)
            && n + size <= (if arch == X64 then 50 else 32)
            && (Last(arch, target, h, off, far) || AcceptFrom(arch, decode, m, target, off + h.len, far, n + size))
  {
    hide CanMove, NewSize, Farther, Last, InstrAt, DecoderSane;
  }

  lemma StartsNext(arch: Arch, decode: Decoder, m: Mem, target: nat, off: nat, farthest: nat)
    requires DecoderSane(arch, decode)
    ensures var h := InstrAt(decode, m, target, off);
            var far := Farther(arch, target, h, off, farthest);
            Starts(arch, decode, m, target, off, farthest) ==
            if Last(arch, target, h, off, far) then [off] else [off] + Starts(arch, decode, m, target, off + h.len, far)
  {
    hide Last, Farther, InstrAt, DecoderSane;
    assert [off] + [] == [off];
  }

  lemma NotLast(arch: Arch, decode: Decoder, m: Mem, target: nat, off: nat, farthest: nat)
    requires DecoderSane(arch, decode) && !Last(arch, target, InstrAt(decode, m, target, off), off, farthest)
    ensures off < JMP_REL
    ensures var h := InstrAt(decode, m, target, off); 1 <= h.len <= 15 && 1 <= NewSize(arch, target, h, off)
  {
    SaneAt(arch, decode, m, target, off);
    hide Inside, DirectCall, DirectJump, ConditionalJump, InstrAt, DecoderSane;
  }

  lemma ContinuesLast(arch: Arch, decode: Decoder, m: Mem, target: nat, cs: seq<Copy>, c: Copy)
    requires |c.code| == NewSize(arch, target, InstrAt(decode, m, target, c.oldPos), c.oldPos)
    ensures Continues(arch, decode, m, target, cs, [c.oldPos], cs + [c])
  {
    hide NewSize, InstrAt;
  }

  /** The loop never takes back a copy. */
  lemma {:induction false} RelocateKeeps(arch: Arch, decode: Decoder, m: Mem, target: nat, slot: nat, cs: seq<Copy>)
    requires DecoderSane(arch, decode)
    ensures var r := Relocate(arch, decode, m, target, slot, cs); r.Some? ==> cs <= r.value
    decreases if NextOld(cs) < JMP_REL then JMP_REL - NextOld(cs) else 0
  {
    var next := NextCopy(arch, decode, m, target, slot, cs);
    if next.Some? && Relocate(arch, decode, m, target, slot, cs + [next.value]).Some? {
      var c := next.value;
      if !Finishes(arch, target, c.h, c.oldPos, FarthestInternal(arch, target, cs + [c])) {
        RelocateKeeps(arch, decode, m, target, slot, cs + [c]);
      }
    }
  }

  lemma ContinuesOne(arch: Arch, decode: Decoder, m: Mem, target: nat, cs: seq<Copy>, c: Copy, ss: seq<nat>,
                     r: seq<Copy>)
    requires Continues(arch, decode, m, target, cs + [c], ss, r) && cs + [c] <= r
    requires |c.code| == NewSize(arch, target, InstrAt(decode, m, target, c.oldPos), c.oldPos)
    ensures Continues(arch, decode, m, target, cs, [c.oldPos] + ss, r)
  {
    hide NewSize, InstrAt;
    assert r[|cs|] == c;
    forall i | 0 <= i < |[c.oldPos] + ss|
      ensures r[|cs| + i].oldPos == ([c.oldPos] + ss)[i]
      ensures var o := ([c.oldPos] + ss)[i];
              |r[|cs| + i].code| == NewSize(arch, target, InstrAt(decode, m, target, o), o)
    {
      if i > 0 {
        assert r[|cs + [c]| + (i - 1)].oldPos == ss[i - 1];
      }
    }
  }

  /**
   The relocation succeeds exactly for acceptable code, whatever the slot; then its boundaries are the starts of
   the scan, and every instruction takes the room that the scan says.
   */
  lemma AcceptedExactly(arch: Arch, decode: Decoder, m: Mem, target: nat, slot: nat)
    requires DecoderSane(arch, decode)
    ensures var r := Relocate(arch, decode, m, target, slot, []);
            && (r.Some? <==> Acceptable(arch, decode, m, target))
            && (r.Some? ==> Continues(arch, decode, m, target, [], Starts(arch, decode, m, target, 0, 0), r.value))
  {
    hide Relocate, Starts, CanMove, KeepsSize, JumpsOver, TotalSize, DecoderSane, AcceptFrom, Continues;
    LoopIsScan(arch, decode, m, target, slot, []);
    AllAtOnce(arch, decode, m, target, 0, 0, 0);
  }

  ghost predicate AllBytes(m: Mem, a: int, b: int, f: Byte) {
    forall x :: a <= x < b ==> m(x) == f
  }

  /** The bytes from a on, up to b, are one filler. */
  ghost predicate Filled(m: Mem, a: int, b: int) {
    AllBytes(m, a, b, 0x00) || AllBytes(m, a, b, 0x90) || AllBytes(m, a, b, 0xCC)
  }

  /** The number of bytes from the target to the end of the last instruction that is looked at. */
  function LengthOf(decode: Decoder, m: Mem, target: nat, ss: seq<nat>): nat
    requires ss != []
  {
    var last := ss[|ss| - 1];
    last + InstrAt(decode, m, target, last).len
  }

  lemma RoomMeans(m: Mem, target: nat, end: nat, n: nat)
    ensures Room(m, target, end, n) <==> end >= n || Filled(m, target + end, target + n)
  {
    if end < n {
      if Room(m, target, end, n) {
        assert forall x :: target + end <= x < target + n ==> m(x) == m(target + end);
      }
    }
  }

  lemma RoomAboveMeans(m: Mem, executable: int -> bool, target: nat)
    ensures RoomAbove(m, executable, target) <==> executable(target - 5) && Filled(m, target - 5, target)
  {
    if RoomAbove(m, executable, target) {
      assert forall x :: target - 5 <= x < target ==> m(x) == m(target - 5);
    }
  }

  /** The code can be relocated, and the jump to the detour has room on what is replaced and on filler. */
  ghost predicate Hookable(arch: Arch, decode: Decoder, m: Mem, executable: int -> bool, target: nat)
    requires DecoderSane(arch, decode)
  {
    && Acceptable(arch, decode, m, target)
    && var end := LengthOf(decode, m, target, Starts(arch, decode, m, target, 0, 0));
       || end >= 5 || Filled(m, target + end, target + 5)
       || ((end >= 2 || Filled(m, target + end, target + 2))
           && executable(target - 5) && Filled(m, target - 5, target))
  }

  /**
   Exactly which functions can be hooked: those whose code can be relocated and who have five bytes of replaced
   code and filler, or two and five bytes of executable filler above.
   */
  lemma HookableExactly(arch: Arch, decode: Decoder, m: Mem, executable: int -> bool, target: nat, slot: nat)
    requires DecoderSane(arch, decode)
    ensures CanHook(arch, decode, m, executable, target, slot) <==> Hookable(arch, decode, m, executable, target)
  {
    hide Acceptable, Filled, LengthOf, Starts, CanHook, Relocate, Patchable, SourceEnd, DecoderSane;
    AcceptedExactly(arch, decode, m, target, slot);
    HookMeans(arch, decode, m, executable, target, slot);
    if Relocate(arch, decode, m, target, slot, []).Some? {
      EndMeans(arch, decode, m, target, slot);
      PatchMeans(m, executable, target, Relocate(arch, decode, m, target, slot, []).value);
    }
  }

  lemma HookMeans(arch: Arch, decode: Decoder, m: Mem, executable: int -> bool, target: nat, slot: nat)
    requires DecoderSane(arch, decode)
    ensures CanHook(arch, decode, m, executable, target, slot) <==>
            var r := Relocate(arch, decode, m, target, slot, []);
            r.Some? && r.value != [] && Patchable(m, executable, target, r.value)
  {
    hide Relocate, Patchable;
  }

  lemma PatchMeans(m: Mem, executable: int -> bool, target: nat, cs: seq<Copy>)
    requires cs != []
    ensures Patchable(m, executable, target, cs) <==>
            var end := SourceEnd(cs);
            || end >= 5 || Filled(m, target + end, target + 5)
            || ((end >= 2 || Filled(m, target + end, target + 2))
                && executable(target - 5) && Filled(m, target - 5, target))
  {
    hide Room, RoomAbove, Filled, SourceEnd;
    RoomMeans(m, target, SourceEnd(cs), 5);
    RoomMeans(m, target, SourceEnd(cs), 2);
    RoomAboveMeans(m, executable, target);
  }

  lemma EndMeans(arch: Arch, decode: Decoder, m: Mem, target: nat, slot: nat)
    requires DecoderSane(arch, decode) && Relocate(arch, decode, m, target, slot, []).Some?
    ensures var r := Relocate(arch, decode, m, target, slot, []).value;
            r != [] && SourceEnd(r) == LengthOf(decode, m, target, Starts(arch, decode, m, target, 0, 0))
  {
    hide Relocate, Acceptable, Starts, DecoderSane, NewSize, Prefix;
    AcceptedExactly(arch, decode, m, target, slot);
    NothingCopied(arch, decode, m, target, slot);
    RelocateGivesLayout(arch, decode, m, target, slot, []);
    var r, ss := Relocate(arch, decode, m, target, slot, []).value, Starts(arch, decode, m, target, 0, 0);
    hide Layout;
    CopyReport(arch, decode, m, target, slot, r, |r| - 1);
    assert r[0 + (|ss| - 1)].oldPos == ss[|ss| - 1];
  }

  lemma NothingCopied(arch: Arch, decode: Decoder, m: Mem, target: nat, slot: nat)
    ensures Prefix(arch, decode, m, target, slot, [])
  {
  }

  // ---------- What it depends on ----------

  /** The instructions that are looked at lie in the first 40 bytes. */
  lemma {:induction false} SameStarts(arch: Arch, decode: Decoder, m: Mem, m': Mem, target: nat, off: nat,
                                     farthest: nat)
    requires DecoderSane(arch, decode) && off <= 19 && Agree(m, m', target, 40)
    ensures Starts(arch, decode, m, target, off, farthest) == Starts(arch, decode, m', target, off, farthest)
    ensures forall i ::
              0 <= i < |Starts(arch, decode, m, target, off, farthest)| ==>
                Starts(arch, decode, m, target, off, farthest)[i] <= 19
    decreases if off < 5 then 5 - off else 0
  {
    SameInstr(arch, decode, m, m', target, off);
    var h := InstrAt(decode, m, target, off);
    var far := Farther(arch, target, h, off, farthest);
    StartsLength(arch, decode, m, target, off, far);
    hide Farther, InstrAt, DecoderSane, Last, Agree;
    if !Last(arch, target, h, off, far) {
      SameStarts(arch, decode, m, m', target, off + h.len, far);
    }
  }

  lemma SameInstr(arch: Arch, decode: Decoder, m: Mem, m': Mem, target: nat, off: nat)
    requires DecoderSane(arch, decode) && off <= 19 && Agree(m, m', target, 40)
    ensures InstrAt(decode, m, target, off) == InstrAt(decode, m', target, off)
    ensures off < 5 ==> off + InstrAt(decode, m, target, off).len <= 19
  {
    ReadAgree(m, m', target + off, WINDOW);
  }

  lemma {:induction false} SameTotal(arch: Arch, decode: Decoder, m: Mem, m': Mem, target: nat, offs: seq<nat>)
    requires forall i ::
               0 <= i < |offs| ==> InstrAt(decode, m, target, offs[i]) == InstrAt(decode, m', target, offs[i])
    ensures TotalSize(arch, decode, m, target, offs) == TotalSize(arch, decode, m', target, offs)
  {
    hide InstrAt, NewSize;
    if offs != [] {
      assert forall i :: 0 <= i < |offs| - 1 ==> offs[1..][i] == offs[i + 1];
      SameTotal(arch, decode, m, m', target, offs[1..]);
    }
  }

  lemma SameTests(arch: Arch, decode: Decoder, m: Mem, m': Mem, target: nat, off: nat)
    requires InstrAt(decode, m, target, off) == InstrAt(decode, m', target, off)
    ensures CanMove(arch, decode, m, target, off) == CanMove(arch, decode, m', target, off)
    ensures KeepsSize(arch, decode, m, target, off) == KeepsSize(arch, decode, m', target, off)
    ensures forall o: nat :: JumpsOver(arch, decode, m, target, off, o) == JumpsOver(arch, decode, m', target, off, o)
  {
    hide InstrAt, NewSize, LoopJump, Inside, JumpGoal;
  }

  lemma SameAcceptable(arch: Arch, decode: Decoder, m: Mem, m': Mem, target: nat)
    requires DecoderSane(arch, decode) && Agree(m, m', target, 40)
    ensures Acceptable(arch, decode, m, target) <==> Acceptable(arch, decode, m', target)
    ensures LengthOf(decode, m, target, Starts(arch, decode, m, target, 0, 0)) ==
            LengthOf(decode, m', target, Starts(arch, decode, m', target, 0, 0))
  {
    hide InstrAt, DecoderSane, Starts, TotalSize, CanMove, KeepsSize, JumpsOver, Agree;
    SameStarts(arch, decode, m, m', target, 0, 0);
    var ss := Starts(arch, decode, m, target, 0, 0);
    forall i | 0 <= i < |ss|
      ensures InstrAt(decode, m, target, ss[i]) == InstrAt(decode, m', target, ss[i])
      ensures CanMove(arch, decode, m, target, ss[i]) == CanMove(arch, decode, m', target, ss[i])
      ensures KeepsSize(arch, decode, m, target, ss[i]) == KeepsSize(arch, decode, m', target, ss[i])
      ensures forall o: nat ::
                JumpsOver(arch, decode, m, target, ss[i], o) == JumpsOver(arch, decode, m', target, ss[i], o)
    {
      SameInstr(arch, decode, m, m', target, ss[i]);
      SameTests(arch, decode, m, m', target, ss[i]);
    }
    SameTotal(arch, decode, m, m', target, ss);
  }

  lemma SameFilled(m: Mem, m': Mem, a: int, b: int)
    requires forall x :: a <= x < b ==> m(x) == m'(x)
    ensures Filled(m, a, b) == Filled(m', a, b)
  {
  }

  lemma SameFillers(m: Mem, m': Mem, target: nat, end: nat)
    requires Agree(m, m', target, 40) && Agree(m, m', target - 5, 5)
    ensures Filled(m, target + end, target + 5) == Filled(m', target + end, target + 5)
    ensures Filled(m, target + end, target + 2) == Filled(m', target + end, target + 2)
    ensures Filled(m, target - 5, target) == Filled(m', target - 5, target)
  {
    hide Filled;
    SameFilled(m, m', target + end, target + 5);
    SameFilled(m, m', target + end, target + 2);
    SameFilled(m, m', target - 5, target);
  }

  /** Whether a function can be hooked depends on five bytes above it and forty bytes of its code. */
  lemma SameHookable(arch: Arch, decode: Decoder, m: Mem, m': Mem, executable: int -> bool, target: nat)
    requires DecoderSane(arch, decode) && Agree(m, m', target, 40) && Agree(m, m', target - 5, 5)
    ensures Hookable(arch, decode, m, executable, target) <==> Hookable(arch, decode, m', executable, target)
  {
    hide DecoderSane, Starts, Acceptable, LengthOf, Filled, Agree;
    SameAcceptable(arch, decode, m, m', target);
    SameFillers(m, m', target, LengthOf(decode, m, target, Starts(arch, decode, m, target, 0, 0)));
  }
}
