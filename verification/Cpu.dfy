/**
 The processor as the hooking engine needs it: what the disassembler reports about one
 instruction, and what one instruction does to the instruction pointer.
 The instruction forms follow the Intel 64 and IA-32 Software Developer's Manual, Volume 2
 (CALL, JMP, Jcc, LOOP, RET reference entries; Volume 2A section 2.2.1.6 for RIP-relative operands).
 */
module Cpu {
  import opened Bytes

  datatype Arch = X86 | X64

  function PtrSize(arch: Arch): nat {
    if arch == X64 then 8 else 4
  }

  function Modulus(arch: Arch): nat {
    if arch == X64 then 0x1_0000_0000_0000_0000 else 0x1_0000_0000
  }

  /** Address arithmetic on ULONG_PTR. */
  function Wrap(arch: Arch, x: int): nat {
    if arch == X64 then x % 0x1_0000_0000_0000_0000 else x % 0x1_0000_0000
  }

  /** The disassembler's report. immLen is the byte count of the immediate operands. */
  datatype Hde = Hde(len: nat, error: bool, opcode: Byte, opcode2: Byte, modrm: Byte,
                     immLen: nat, imm8: Byte, imm32: nat, disp32: nat)

  /** The disassembler sees 16 bytes of code, one more than the longest instruction. */
  type Decoder = seq<Byte> -> Hde

  const WINDOW: nat := 16

  datatype Class = RipOperand | CallRel | JmpNear | JmpShort | JccShort | JccNear | LoopShort | Ret | Plain

  /** ModR/M = 00???101B: a RIP-relative memory operand in 64-bit mode. */
  predicate IsRip(arch: Arch, h: Hde) {
    arch == X64 && h.modrm / 64 == 0 && h.modrm % 8 == 5
  }

  function RegField(h: Hde): nat {
    (h.modrm / 8) % 8
  }

  function Classify(arch: Arch, h: Hde): Class {
    if IsRip(arch, h) then RipOperand
    else if h.opcode == 0xE8 then CallRel
    else if h.opcode == 0xE9 then JmpNear
    else if h.opcode == 0xEB then JmpShort
    else if 0x70 <= h.opcode <= 0x7F then JccShort
    else if 0xE0 <= h.opcode <= 0xE3 then LoopShort
    else if h.opcode == 0x0F && 0x80 <= h.opcode2 <= 0x8F then JccNear
    else if h.opcode == 0xC2 || h.opcode == 0xC3 then Ret
    else Plain
  }

  predicate IsShort(c: Class) {
    c == JmpShort || c == JccShort || c == LoopShort
  }

  /** A jump, conditional or not, to an address encoded in the instruction. */
  predicate IsBranch(c: Class) {
    c == JmpNear || c == JmpShort || c == JccShort || c == JccNear || c == LoopShort
  }

  /** Destination of the relative CALL or branch h located at ip. */
  function Dest(arch: Arch, h: Hde, ip: int): nat {
    Wrap(arch, ip + h.len + (if IsShort(Classify(arch, h)) then Sext8(h.imm8) else Sext32(h.imm32)))
  }

  /** Condition code of a conditional jump. */
  function Cond(h: Hde): nat {
    if h.opcode != 0x0F then h.opcode % 16 else h.opcode2 % 16
  }

  /** Offset of the 4-byte displacement inside a RIP-relative instruction. */
  function RipField(h: Hde): int {
    h.len - h.immLen - 4
  }

  function RipAddress(arch: Arch, h: Hde, ip: int): nat {
    Wrap(arch, ip + h.len + Sext32(h.disp32))
  }

  /** What the hooking engine itself relies on. */
  ghost predicate DecoderSane(arch: Arch, decode: Decoder) {
    forall w {:trigger decode(w)} :: |w| == WINDOW ==>
      var h := decode(w);
      && 1 <= h.len <= 15
      && (h.opcode2 != 0 ==> h.opcode == 0x0F)
      && (IsRip(arch, h) ==> h.immLen + 6 <= h.len)
      && h.imm32 < 0x1_0000_0000
  }

  /** The report on an instruction depends only on the bytes of the instruction itself. */
  ghost predicate DecoderLocal(decode: Decoder) {
    forall w, w' {:trigger decode(w), decode(w')} ::
      |w| == |w'| == WINDOW && !decode(w).error && decode(w).len <= WINDOW && w[..decode(w).len] == w'[..decode(w).len]
      ==> decode(w') == decode(w)
  }

  /** If w' differs from the RIP-relative instruction w in the displacement only, so do the reports. */
  ghost predicate RipRewritten(arch: Arch, decode: Decoder, w: seq<Byte>, w': seq<Byte>) {
    && |w| == |w'| == WINDOW && !decode(w).error && IsRip(arch, decode(w)) && 0 <= RipField(decode(w)) &&
       decode(w).len <= WINDOW
    && (forall k :: 0 <= k < decode(w).len && !(RipField(decode(w)) <= k < RipField(decode(w)) + 4) ==> w[k] == w'[k])
    ==> var f := RipField(decode(w));
        f + 4 <= WINDOW ==> decode(w') == decode(w).(disp32 := FromLE(w'[f..f + 4]))
  }

  /** Rewriting the displacement of a RIP-relative instruction changes nothing else in the report. */
  ghost predicate DecoderRip(arch: Arch, decode: Decoder) {
    forall w, w' {:trigger decode(w), decode(w')} :: RipRewritten(arch, decode, w, w')
  }

  predicate Reported(h: Hde, len: nat, opcode: Byte, opcode2: Byte, modrm: Byte) {
    !h.error && h.len == len && h.opcode == opcode && h.opcode2 == opcode2 && h.modrm == modrm
  }

  /** The report on the instruction forms that the engine itself writes. */
  ghost predicate DecoderTemplates(arch: Arch, decode: Decoder) {
    forall w {:trigger decode(w)} :: |w| == WINDOW ==>
      var h := decode(w);
      && (w[0] == 0xE8 || w[0] == 0xE9 ==> Reported(h, 5, w[0], 0, 0) && h.imm32 == FromLE(w[1..5]))
      && (w[0] == 0xEB || 0x70 <= w[0] <= 0x7F ==> Reported(h, 2, w[0], 0, 0) && h.imm8 == w[1])
      && (w[0] == 0x0F && 0x80 <= w[1] <= 0x8F ==> Reported(h, 6, 0x0F, w[1], 0) && h.imm32 == FromLE(w[2..6]))
      && (arch == X64 && w[0] == 0xFF && (w[1] == 0x15 || w[1] == 0x25) ==>
            Reported(h, 6, 0xFF, 0, w[1]) && h.immLen == 0 && h.disp32 == FromLE(w[2..6]))
  }

  ghost predicate DecoderOk(arch: Arch, decode: Decoder) {
    DecoderSane(arch, decode) && DecoderLocal(decode) && DecoderRip(arch, decode) && DecoderTemplates(arch, decode)
  }

  /** Effect of an instruction whose meaning does not depend on where it is placed. */
  datatype Effect<D> = Next(data: D) | Goto(ip: nat, data: D) | Invoke(ip: nat, data: D)

  /** Everything a processor does that the engine does not look into; D is registers and data memory. */
  datatype Machine<!D> = Machine(
    arch: Arch,
    decode: Decoder,
    exec: (seq<Byte>, nat, D) -> Effect<D>,   // bytes with the displacement blanked, operand address, state
    flag: (nat, D) -> bool,                   // the eight basic conditions; odd condition codes negate them
    loop: (nat, D) -> (bool, D),              // LOOPNZ/LOOPZ/LOOP/JCXZ: taken?, counter updated
    ret: (seq<Byte>, D) -> (nat, D))          // RET: the popped address

  /** Result of one instruction: where control goes, the return address pushed, if any, and
      whether the address came from the instruction itself. */
  datatype Out<D> = Out(ip: nat, push: Option<nat>, direct: bool, data: D)

  predicate Holds<D>(c: Machine<D>, cond: nat, d: D) {
    c.flag(cond / 2, d) != (cond % 2 == 1)
  }

  function Blank(bs: seq<Byte>, f: nat): seq<Byte>
    requires f + 4 <= |bs|
  {
    bs[..f] + [0, 0, 0, 0] + bs[f + 4..]
  }

  function Finish<D>(e: Effect<D>, end: nat): Out<D> {
    match e
    case Next(d) => Out(end, None, true, d)
    case Goto(ip, d) => Out(ip, None, false, d)
    case Invoke(ip, d) => Out(ip, Some(end), false, d)
  }

  /** The RIP-relative operand h with effective address ea, executed with code bytes bs. */
  function RipStep<D>(c: Machine<D>, m: Mem, h: Hde, bs: seq<Byte>, ea: nat, end: nat, d: D): Out<D> {
    if h.opcode == 0xFF && RegField(h) == 4 then Out(Load(m, ea, PtrSize(c.arch)), None, false, d)
    else if h.opcode == 0xFF && RegField(h) == 2 then Out(Load(m, ea, PtrSize(c.arch)), Some(end), false, d)
    else Finish(c.exec(if 0 <= RipField(h) && RipField(h) + 4 <= |bs| then Blank(bs, RipField(h)) else bs, ea, d), end)
  }

  /** One instruction fetched from m at ip. */
  function Step<D>(c: Machine<D>, m: Mem, ip: int, d: D): Out<D> {
    var h := c.decode(Read(m, ip, WINDOW));
    var bs := Read(m, ip, h.len);
    var end := Wrap(c.arch, ip + h.len);
    match Classify(c.arch, h)
    case RipOperand => RipStep(c, m, h, bs, RipAddress(c.arch, h, ip), end, d)
    case CallRel => Out(Dest(c.arch, h, ip), Some(end), true, d)
    case JmpNear => Out(Dest(c.arch, h, ip), None, true, d)
    case JmpShort => Out(Dest(c.arch, h, ip), None, true, d)
    case JccShort => Out(if Holds(c, Cond(h), d) then Dest(c.arch, h, ip) else end, None, true, d)
    case JccNear => Out(if Holds(c, Cond(h), d) then Dest(c.arch, h, ip) else end, None, true, d)
    case LoopShort =>
      var (taken, d') := c.loop(h.opcode, d);
      Out(if taken then Dest(c.arch, h, ip) else end, None, true, d')
    case Ret =>
      var (r, d') := c.ret(bs, d);
      Out(r, None, false, d')
    case Plain => Finish(c.exec(bs, 0, d), end)
  }

  /** An instruction that only moves the instruction pointer. */
  ghost predicate Silent<D>(o: Out<D>, d: D) {
    o.push == None && o.data == d
  }
}
