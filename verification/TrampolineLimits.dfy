/**
 Where the relocation is not faithful, and by how little: concrete code for each case. A small
 decoder for the instructions involved also shows that the assumptions on decoders can be met.
 */
module TrampolineLimits {
  import opened Bytes
  import opened Cpu
  import opened TrampolineSpec
  import opened TrampolineSim
  import opened SlotHeap
  import opened Buffer

  /** Decodes the relative transfers, the RIP-indirect jump and call, NOP and RET; anything else is an error. */
  function SmallDecode(arch: Arch, w: seq<Byte>): Hde {
    if |w| < WINDOW then Hde(1, true, 0, 0, 0, 0, 0, 0, 0)
    else if w[0] == 0xE8 || w[0] == 0xE9 then Hde(5, false, w[0], 0, 0, 4, w[1], FromLE(w[1..5]), 0)
    else if w[0] == 0xEB || 0x70 <= w[0] <= 0x7F then Hde(2, false, w[0], 0, 0, 1, w[1], w[1], 0)
    else if w[0] == 0x0F && 0x80 <= w[1] <= 0x8F then Hde(6, false, 0x0F, w[1], 0, 4, w[2], FromLE(w[2..6]), 0)
    else if arch == X64 && w[0] == 0xFF && (w[1] == 0x15 || w[1] == 0x25) then
      Hde(6, false, 0xFF, 0, w[1], 0, 0, 0, FromLE(w[2..6]))
    else if w[0] == 0x90 || w[0] == 0xC3 then Hde(1, false, w[0], 0, 0, 0, 0, 0, 0)
    else Hde(1, true, 0, 0, 0, 0, 0, 0, 0)
  }

  function SmallDecoder(arch: Arch): Decoder {
    w => SmallDecode(arch, w)
  }

  lemma SmallIsSane(arch: Arch)
    ensures DecoderSane(arch, SmallDecoder(arch))
  {
    forall w: seq<Byte> | |w| == WINDOW
      ensures SmallDecoder(arch)(w).imm32 < 0x1_0000_0000
    {
      FromLEBound(w[1..5]);
      FromLEBound(w[2..6]);
      Pow256Values();
    }
  }

  /** The report depends on the first two bytes and on the field they announce. */
  lemma SmallIsLocal(arch: Arch)
    ensures DecoderLocal(SmallDecoder(arch))
  {
    forall w: seq<Byte>, w': seq<Byte> | |w| == |w'| == WINDOW && !SmallDecode(arch, w).error &&
      w[..SmallDecode(arch, w).len] == w'[..SmallDecode(arch, w).len]
      ensures SmallDecode(arch, w') == SmallDecode(arch, w)
    {
      SameReport(arch, w, w');
    }
  }

  lemma SameReport(arch: Arch, w: seq<Byte>, w': seq<Byte>)
    requires |w| == |w'| == WINDOW && !SmallDecode(arch, w).error &&
             w[..SmallDecode(arch, w).len] == w'[..SmallDecode(arch, w).len]
    ensures SmallDecode(arch, w') == SmallDecode(arch, w)
  {
    var n := SmallDecode(arch, w).len;
    assert forall k :: 0 <= k < n ==> w[k] == w[..n][k] == w'[k];
    if n == 5 {
      assert w[1..5] == w'[1..5];
    } else if n == 6 {
      assert w[2..6] == w'[2..6];
    }
  }

  lemma SmallRipField(arch: Arch, w: seq<Byte>)
    requires |w| == WINDOW && IsRip(arch, SmallDecode(arch, w))
    ensures RipField(SmallDecode(arch, w)) == 2 && SmallDecode(arch, w).len == 6
  {
    hide FromLE;
  }

  lemma SmallRip(arch: Arch, w: seq<Byte>, w': seq<Byte>)
    requires |w| == |w'| == WINDOW && IsRip(arch, SmallDecode(arch, w)) && w[0] == w'[0] && w[1] == w'[1]
    ensures SmallDecode(arch, w') == SmallDecode(arch, w).(disp32 := FromLE(w'[2..6]))
    ensures RipField(SmallDecode(arch, w)) == 2
  {
    hide FromLE;
  }

  lemma SmallRipPair(arch: Arch, w: seq<Byte>, w': seq<Byte>)
    ensures RipRewritten(arch, SmallDecoder(arch), w, w')
  {
    hide FromLE;
    if |w| == |w'| == WINDOW && IsRip(arch, SmallDecode(arch, w)) {
      SmallRipField(arch, w);
      if w[0] == w'[0] && w[1] == w'[1] {
        SmallRip(arch, w, w');
      }
    }
    hide SmallDecode, IsRip;
  }

  lemma SmallHandlesRip(arch: Arch)
    ensures DecoderRip(arch, SmallDecoder(arch))
  {
    forall w: seq<Byte>, w': seq<Byte>
      ensures RipRewritten(arch, SmallDecoder(arch), w, w')
    {
      SmallRipPair(arch, w, w');
    }
    hide RipRewritten;
  }

  /** The assumptions on the decoder are met by a decoder. */
  lemma DecodersExist(arch: Arch)
    ensures DecoderOk(arch, SmallDecoder(arch))
  {
    SmallIsSane(arch);
    SmallIsLocal(arch);
    SmallHandlesRip(arch);
    assert DecoderTemplates(arch, SmallDecoder(arch));
  }

  // ---------- A backward jump over a copy that grew ----------

  const TARGET: nat := 0x401000
  const SLOT: nat := 0x300020

  /** JZ out of the function, JMP back to its start, NOP, RET. */
  const BACKWARD: Mem := Write(x => 0x90, TARGET, [0x74, 0x10, 0xEB, 0xFC, 0x90, 0xC3])

  lemma BackwardBytes()
    ensures Read(BACKWARD, TARGET, 6) == [0x74, 0x10, 0xEB, 0xFC, 0x90, 0xC3]
    ensures Read(BACKWARD, TARGET, WINDOW)[0] == 0x74 && Read(BACKWARD, TARGET, WINDOW)[1] == 0x10
    ensures Read(BACKWARD, TARGET + 2, WINDOW)[0] == 0xEB && Read(BACKWARD, TARGET + 2, WINDOW)[1] == 0xFC
    ensures Read(BACKWARD, TARGET + 4, WINDOW)[0] == 0x90
    ensures Read(BACKWARD, TARGET + 5, WINDOW)[0] == 0xC3
  {
    ReadWritten(x => 0x90, TARGET, [0x74, 0x10, 0xEB, 0xFC, 0x90, 0xC3]);
  }

  const H0: Hde := SmallDecode(X86, Read(BACKWARD, TARGET, WINDOW))
  const H1: Hde := SmallDecode(X86, Read(BACKWARD, TARGET + 2, WINDOW))
  const H2: Hde := SmallDecode(X86, Read(BACKWARD, TARGET + 4, WINDOW))
  const H3: Hde := SmallDecode(X86, Read(BACKWARD, TARGET + 5, WINDOW))

  const C0: Copy := Copy(0, 0, H0, JccCode(X86, SLOT, 4, TARGET + 18))
  const C1: Copy := Copy(2, 6, H1, Read(BACKWARD, TARGET + 2, 2))
  const C2: Copy := Copy(4, 8, H2, Read(BACKWARD, TARGET + 4, 1))
  const C3: Copy := Copy(5, 9, H3, JmpCode(X86, SLOT + 9, TARGET + 5))

  lemma BackwardReports()
    ensures !H0.error && H0.len == 2 && H0.opcode == 0x74 && H0.opcode2 == 0 && H0.modrm == 0 && H0.imm8 == 0x10
    ensures !H1.error && H1.len == 2 && H1.opcode == 0xEB && H1.opcode2 == 0 && H1.modrm == 0 && H1.imm8 == 0xFC
    ensures !H2.error && H2.len == 1 && H2.opcode == 0x90 && H2.opcode2 == 0 && H2.modrm == 0
    ensures !H3.error && H3.len == 1 && H3.opcode == 0xC3 && H3.opcode2 == 0 && H3.modrm == 0
  {
    BackwardBytes();
    hide Read, FromLE;
  }

  lemma BackwardDests()
    ensures InternalDest(X86, TARGET, C0) == 0 && InternalDest(X86, TARGET, C1) == TARGET
    ensures InternalDest(X86, TARGET, C2) == 0 && InternalDest(X86, TARGET, C3) == 0
    ensures Dest(X86, H1, TARGET + 2) == TARGET && Dest(X86, H1, SLOT + 6) == SLOT + 4
  {
    hide Read, SmallDecode, JccCode, JmpCode;
    BackwardReports();
  }

  lemma BackwardCodes()
    ensures CodeAt(X86, TARGET, SLOT, BACKWARD, H0, 0, 0) == Some(C0.code) && |C0.code| == 6
    ensures CodeAt(X86, TARGET, SLOT, BACKWARD, H1, 2, 6) == Some(C1.code) && |C1.code| == 2
    ensures CodeAt(X86, TARGET, SLOT, BACKWARD, H2, 4, 8) == Some(C2.code) && |C2.code| == 1
    ensures CodeAt(X86, TARGET, SLOT, BACKWARD, H3, 5, 9) == Some(C3.code) && |C3.code| == 5
  {
    hide SmallDecode, JccCode, JmpCode;
    BackwardReports();
    JccCodeSize(X86, SLOT, 4, TARGET + 18);
    JmpCodeSize(X86, SLOT + 9, TARGET + 5);
  }

  lemma BackwardRelocated()
    requires DecoderSane(X86, SmallDecoder(X86))
    ensures Relocate(X86, SmallDecoder(X86), BACKWARD, TARGET, SLOT, []) == Some([C0, C1, C2, C3])
  {
    BackwardReports();
    BackwardDests();
    BackwardCodes();
    hide SmallDecode, DecoderSane, Relocate, Write, Read, JccCode, JmpCode, InternalDest, CodeAt, Dest;
    FarthestNext4(X86, TARGET, C0, C1, C2, C3);
    Place(X86, BACKWARD, TARGET, SLOT, H0, [], C0, false);
    Place(X86, BACKWARD, TARGET, SLOT, H1, [C0], C1, false);
    Place(X86, BACKWARD, TARGET, SLOT, H2, [C0, C1], C2, false);
    Place(X86, BACKWARD, TARGET, SLOT, H3, [C0, C1, C2], C3, true);
    assert [] + [C0] == [C0] && [C0] + [C1] == [C0, C1] && [C0, C1] + [C2] == [C0, C1, C2];
    assert [C0, C1, C2] + [C3] == [C0, C1, C2, C3];
  }

  lemma FarthestNext4(arch: Arch, target: nat, c0: Copy, c1: Copy, c2: Copy, c3: Copy)
    requires InternalDest(arch, target, c0) <= InternalDest(arch, target, c1)
    requires InternalDest(arch, target, c2) == InternalDest(arch, target, c3) == 0
    ensures FarthestInternal(arch, target, [] + [c0]) == InternalDest(arch, target, c0)
    ensures FarthestInternal(arch, target, [c0] + [c1]) == InternalDest(arch, target, c1)
    ensures FarthestInternal(arch, target, [c0, c1] + [c2]) == InternalDest(arch, target, c1)
    ensures FarthestInternal(arch, target, [c0, c1, c2] + [c3]) == InternalDest(arch, target, c1)
  {
    hide InternalDest;
    assert ([] + [c0])[..0] == [] && ([c0] + [c1])[..1] == [] + [c0];
    assert ([c0, c1] + [c2])[..2] == [c0] + [c1] && ([c0, c1, c2] + [c3])[..3] == [c0, c1] + [c2];
  }

  /** The relocation succeeds, yet the copied jump goes into the middle of the copied JZ instead of to its start. */
  lemma BackwardJumpMisplaced()
    ensures DecoderOk(X86, SmallDecoder(X86))
    ensures SLOT / BLOCK * BLOCK % BLOCK == 0 && IsSlot(X86, SLOT / BLOCK * BLOCK, SLOT)
    ensures var r := Relocate(X86, SmallDecoder(X86), BACKWARD, TARGET, SLOT, []);
            && r.Some? && |r.value| == 4
            && var jz, jmp := r.value[0], r.value[1];
               && InternalBranch(X86, TARGET, jmp) && InternalDest(X86, TARGET, jmp) == TARGET + jz.oldPos
               && Dest(X86, jmp.h, SLOT + jmp.newPos) == SLOT + jz.newPos + 4
  {
    hide DecoderOk, SmallDecode, SmallDecoder, Relocate, Read, JccCode, JmpCode, Dest;
    DecodersExist(X86);
    SmallIsSane(X86);
    BackwardRelocated();
    BackwardDests();
  }

  /** One round of the relocation, worked out. */
  lemma Place(arch: Arch, m: Mem, target: nat, slot: nat, h: Hde, cs: seq<Copy>, c: Copy, last: bool)
    requires DecoderSane(arch, SmallDecoder(arch))
    requires c.oldPos == NextOld(cs) && c.newPos == NextNew(cs) && c.h == h && !h.error
    requires h == SmallDecode(arch, Read(m, target + c.oldPos, WINDOW))
    requires CodeAt(arch, target, slot, m, h, c.oldPos, c.newPos) == Some(c.code)
    requires FarthestInternal(arch, target, cs + [c]) <= target + c.oldPos
    requires c.newPos + |c.code| <= TrampolineMaxSize(arch) && |cs| < MAX_IPS
    requires last == Finishes(arch, target, h, c.oldPos, FarthestInternal(arch, target, cs + [c]))
    ensures Relocate(arch, SmallDecoder(arch), m, target, slot, cs) ==
            if last then Some(cs + [c]) else Relocate(arch, SmallDecoder(arch), m, target, slot, cs + [c])
  {
    PlaceNext(arch, m, target, slot, h, cs, c);
    hide CodeAt, FarthestInternal, Finishes, SmallDecode, Read, DecoderSane, NextCopy, NextOld, NextNew;
  }

  lemma PlaceNext(arch: Arch, m: Mem, target: nat, slot: nat, h: Hde, cs: seq<Copy>, c: Copy)
    requires c.oldPos == NextOld(cs) && c.newPos == NextNew(cs) && c.h == h && !h.error
    requires h == SmallDecode(arch, Read(m, target + c.oldPos, WINDOW))
    requires CodeAt(arch, target, slot, m, h, c.oldPos, c.newPos) == Some(c.code)
    requires FarthestInternal(arch, target, cs + [c]) <= target + c.oldPos
    requires c.newPos + |c.code| <= TrampolineMaxSize(arch) && |cs| < MAX_IPS
    ensures NextCopy(arch, SmallDecoder(arch), m, target, slot, cs) == Some(c)
  {
    hide CodeAt, FarthestInternal, SmallDecode, Read, NextOld, NextNew;
  }

  // ---------- An operand that moves out of reach ----------

  const HIGH: nat := 0x7FF0_0000_0000
  const LOW: nat := 0x7FEF_F000_0040

  /** CALL [RIP + 0x7FFFFFFF], RET. */
  const FAR_CALL: seq<Byte> := [0xFF, 0x15, 0xFF, 0xFF, 0xFF, 0x7F, 0xC3]
  const FAR: Mem := Write(x => 0x90, HIGH, FAR_CALL)

  const G0: Hde := SmallDecode(X64, Read(FAR, HIGH, WINDOW))
  const G1: Hde := SmallDecode(X64, Read(FAR, HIGH + 6, WINDOW))

  const K0: Copy := Copy(0, 0, G0, [0xFF, 0x15] + LE(4, Trunc32(RipDelta(G0, HIGH, LOW))))
  const K1: Copy := Copy(6, 6, G1, JmpCode(X64, LOW + 6, HIGH + 6))

  lemma FarBytes()
    ensures Read(FAR, HIGH, 6) == [0xFF, 0x15, 0xFF, 0xFF, 0xFF, 0x7F]
    ensures var w := Read(FAR, HIGH, WINDOW); w[0] == 0xFF && w[1] == 0x15 && w[2..6] == [0xFF, 0xFF, 0xFF, 0x7F]
    ensures Read(FAR, HIGH + 6, WINDOW)[0] == 0xC3
  {
    ReadWritten(x => 0x90, HIGH, FAR_CALL);
    assert FAR_CALL[..6] == [0xFF, 0x15, 0xFF, 0xFF, 0xFF, 0x7F];
  }

  lemma FarReports()
    ensures G0 == Hde(6, false, 0xFF, 0, 0x15, 0, 0, 0, 0x7FFF_FFFF)
    ensures !G1.error && G1.len == 1
  {
    FarBytes();
    var d: seq<Byte> := [0xFF, 0xFF, 0xFF, 0x7F];
    assert d[1..] == [0xFF, 0xFF, 0x7F] && d[1..][1..] == [0xFF, 0x7F] && d[1..][1..][1..] == [0x7F];
    assert FromLE([0x7F]) == 0x7F;
    assert FromLE([0xFF, 0x7F]) == 0x7FFF;
    assert FromLE([0xFF, 0xFF, 0x7F]) == 0x7F_FFFF;
    hide Read;
  }

  lemma FarCodes()
    ensures CodeAt(X64, HIGH, LOW, FAR, G0, 0, 0) == Some(K0.code) && |K0.code| == 6
    ensures CodeAt(X64, HIGH, LOW, FAR, G1, 6, 6) == Some(K1.code) && |K1.code| == 14
    ensures InternalDest(X64, HIGH, K0) == 0 && InternalDest(X64, HIGH, K1) == 0
  {
    hide Read, LE, JmpCode, SmallDecode, RipDelta, Trunc32, Sext32;
    FarBytes();
    FarReports();
    assert Read(FAR, HIGH, 6)[..2] == [0xFF, 0x15];
    JmpCodeSize(X64, LOW + 6, HIGH + 6);
    RipCode(G0, Read(FAR, HIGH, 6), HIGH, LOW);
  }

  /** The code for FF 15 with a displacement. */
  lemma RipCode(h: Hde, src: seq<Byte>, from: nat, to: nat)
    requires Classify(X64, h) == RipOperand && h.len == |src| == 6 && h.immLen == 0
    ensures Translate(X64, from, h, src, from, to) == Some(src[..2] + LE(4, Trunc32(RipDelta(h, from, to))))
  {
    hide LE, Trunc32, Sext32, Classify;
    var code := src[..2] + LE(4, Trunc32(RipDelta(h, from, to)));
    assert RipField(h) == 2;
    assert from + h.len + Sext32(h.disp32) - (to + h.len) == RipDelta(h, from, to);
    assert src[6..] == [] && code + [] == code;
  }

  lemma FarRelocated()
    requires DecoderSane(X64, SmallDecoder(X64))
    ensures Relocate(X64, SmallDecoder(X64), FAR, HIGH, LOW, []) == Some([K0, K1])
  {
    FarReports();
    FarCodes();
    hide SmallDecode, DecoderSane, Relocate, Write, Read, JmpCode, InternalDest, CodeAt, Dest, LE;
    FarthestNext2(X64, HIGH, K0, K1);
    Place(X64, FAR, HIGH, LOW, G0, [], K0, false);
    Place(X64, FAR, HIGH, LOW, G1, [K0], K1, true);
    assert [] + [K0] == [K0] && [K0] + [K1] == [K0, K1];
  }

  lemma FarthestNext2(arch: Arch, target: nat, c0: Copy, c1: Copy)
    requires InternalDest(arch, target, c0) == InternalDest(arch, target, c1) == 0
    ensures FarthestInternal(arch, target, [] + [c0]) == 0 && FarthestInternal(arch, target, [c0] + [c1]) == 0
  {
    hide InternalDest;
    assert ([] + [c0])[..0] == [] && ([c0] + [c1])[..1] == [] + [c0];
  }

  /** The report on the copied call, wherever its bytes stand. */
  lemma FarCopyReport(m: Mem)
    requires Read(m, LOW, 6) == K0.code
    ensures SmallDecode(X64, Read(m, LOW, WINDOW)) == G0.(disp32 := Trunc32(RipDelta(G0, HIGH, LOW)))
  {
    hide LE, FromLE, RipDelta;
    FarReports();
    hide Read, SmallDecode;
    CallDecoded(Read(m, LOW, WINDOW), Trunc32(RipDelta(G0, HIGH, LOW)));
    ReadPart(m, LOW, WINDOW, 0, 6);
  }

  lemma CallDecoded(w: seq<Byte>, disp: nat)
    requires |w| == WINDOW && disp < 0x1_0000_0000
    ensures w[0..6] == [0xFF, 0x15] + LE(4, disp) ==>
              SmallDecode(X64, w) == Hde(6, false, 0xFF, 0, 0x15, 0, 0, 0, disp)
  {
    if w[0..6] == [0xFF, 0x15] + LE(4, disp) {
      var field := LE(4, disp);
      assert w[0] == w[0..6][0] && w[1] == w[0..6][1];
      assert w[2..6] == w[0..6][2..6] == field;
      Pow256Values();
      LERoundTrip(4, disp);
      hide LE, FromLE;
    }
  }

  /**
   A call through a pointer almost 2 GB above it, hooked with a slot 256 MB below it, well within the
   range in which the allocator looks: the relocation succeeds, and the copied call uses another pointer.
   */
  lemma OperandLost(m: Mem)
    requires Read(m, LOW, 6) == K0.code
    ensures DecoderOk(X64, SmallDecoder(X64))
    ensures var b := LOW / BLOCK * BLOCK; b % BLOCK == 0 && IsSlot(X64, b, LOW) && InReach(X64, HIGH, b)
    ensures Relocate(X64, SmallDecoder(X64), FAR, HIGH, LOW, []) == Some([K0, K1])
    ensures IsRip(X64, SmallDecode(X64, Read(m, LOW, WINDOW)))
    ensures RipAddress(X64, SmallDecode(X64, Read(m, LOW, WINDOW)), LOW) !=
            RipAddress(X64, SmallDecode(X64, Read(FAR, HIGH, WINDOW)), HIGH)
  {
    hide DecoderOk, SmallDecode, SmallDecoder, Relocate, Read, LE, JmpCode, RipDelta, RipAddress;
    DecodersExist(X64);
    SmallIsSane(X64);
    FarRelocated();
    FarReports();
    FarCopyReport(m);
    FarOperand();
  }

  lemma FarOperand()
    ensures RipAddress(X64, G0.(disp32 := Trunc32(RipDelta(G0, HIGH, LOW))), LOW) != RipAddress(X64, G0, HIGH)
  {
    FarReports();
    OperandKept(G0, HIGH, LOW);
  }
}
