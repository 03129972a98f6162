/** What the processor does on the instruction sequences that the hooking engine writes. */
module TemplateRuns {
  import opened Bytes
  import opened Cpu
  import opened TrampolineSpec

  lemma WindowByte(m: Mem, at: int, k: nat)
    requires k < WINDOW
    ensures Read(m, at, WINDOW)[k] == m(at + k)
  {
  }

  lemma CodeByte(m: Mem, at: int, code: seq<Byte>, k: nat)
    requires Read(m, at, |code|) == code && k < |code|
    ensures m(at + k) == code[k]
  {
    assert Read(m, at, |code|)[k] == m(at + k);
  }

  /** The field code[lo..hi] as the decoder sees it in the window at `at`. */
  lemma WindowField(m: Mem, at: int, code: seq<Byte>, lo: nat, hi: nat)
    requires Read(m, at, |code|) == code && lo <= hi <= |code| && hi <= WINDOW
    ensures Read(m, at, WINDOW)[lo..hi] == code[lo..hi]
  {
    ReadPart(m, at, WINDOW, lo, hi);
    ReadPart(m, at, |code|, lo, hi);
  }

  /**
   A 32-bit displacement, truncated and sign-extended, leads back to where it came from (modulo the address
   size on x86).
   */
  lemma Displaced32(from: int, dest: nat)
    requires dest < 0x1_0000_0000
    ensures Wrap(X86, from + Sext32(Trunc32(dest - from))) == dest
  {
    var q := (dest - from) / 0x1_0000_0000;
    assert Trunc32(dest - from) == dest - from - q * 0x1_0000_0000;
    var s := if Trunc32(dest - from) < 0x8000_0000 then q else q + 1;
    assert Sext32(Trunc32(dest - from)) == dest - from - s * 0x1_0000_0000;
    assert from + Sext32(Trunc32(dest - from)) == dest - s * 0x1_0000_0000;
  }

  /** A long jump with a rel32 operand. */
  lemma JmpRelRuns<D>(c: Machine<D>, m: Mem, at: nat, operand: nat, d: D)
    requires DecoderOk(c.arch, c.decode)
    requires operand < 0x1_0000_0000 && Read(m, at, 5) == [0xE9] + LE(4, operand)
    ensures Step(c, m, at, d) == Out(Wrap(c.arch, at + 5 + Sext32(operand)), None, true, d)
  {
    var code := [0xE9] + LE(4, operand);
    var w := Read(m, at, WINDOW);
    WindowByte(m, at, 0);
    CodeByte(m, at, code, 0);
    WindowField(m, at, code, 1, 5);
    assert code[1..5] == LE(4, operand);
    Pow256Values();
    LERoundTrip(4, operand);
    var h := c.decode(w);
    assert Reported(h, 5, 0xE9, 0, 0) && h.imm32 == operand;
  }

  lemma ShortJumpRuns<D>(c: Machine<D>, m: Mem, at: nat, operand: Byte, d: D)
    requires DecoderOk(c.arch, c.decode)
    requires m(at) == 0xEB && m(at + 1) == operand
    ensures Step(c, m, at, d) == Out(Wrap(c.arch, at + 2 + Sext8(operand)), None, true, d)
  {
    WindowByte(m, at, 0);
    WindowByte(m, at, 1);
    var h := c.decode(Read(m, at, WINDOW));
    assert Reported(h, 2, 0xEB, 0, 0);
  }

  /** The decoder on FF 25 / FF 15 with displacement disp. */
  lemma IndirectReport(decode: Decoder, m: Mem, at: nat, call: bool, disp: nat)
    requires DecoderTemplates(X64, decode) && disp < 0x80
    requires Read(m, at, 6) == [0xFF, if call then 0x15 else 0x25] + LE(4, disp)
    ensures var h := decode(Read(m, at, WINDOW));
            Reported(h, 6, 0xFF, 0, if call then 0x15 else 0x25) && h.disp32 == disp
  {
    var code := [0xFF, if call then 0x15 else 0x25] + LE(4, disp);
    WindowByte(m, at, 0);
    WindowByte(m, at, 1);
    CodeByte(m, at, code, 0);
    CodeByte(m, at, code, 1);
    WindowField(m, at, code, 2, 6);
    assert code[2..6] == LE(4, disp);
    Pow256Values();
    LERoundTrip(4, disp);
  }

  /** FF 25 / FF 15: an indirect jump or call through the literal at at + 6 + disp. */
  lemma IndirectRuns<D>(c: Machine<D>, m: Mem, at: nat, call: bool, disp: nat, dest: nat, d: D)
    requires c.arch == X64 && DecoderOk(c.arch, c.decode)
    requires disp < 0x80 && at + 14 + disp <= Modulus(X64) && dest < Modulus(X64)
    requires Read(m, at, 6) == [0xFF, if call then 0x15 else 0x25] + LE(4, disp)
    requires Read(m, at + 6 + disp, 8) == LE(8, dest)
    ensures var o := Step(c, m, at, d);
            o.ip == dest && o.data == d && o.push == if call then Some(at + 6) else None
  {
    hide Read, DecoderTemplates, DecoderRip, DecoderLocal, DecoderSane, LE, FromLE;
    IndirectReport(c.decode, m, at, call, disp);
    Pow256Values();
    LERoundTrip(8, dest);
    var h := c.decode(Read(m, at, WINDOW));
    assert RipAddress(X64, h, at) == at + 6 + disp;
  }

  lemma SmallLE(v: Byte)
    ensures LE(4, v) == [v, 0, 0, 0]
  {
    assert LE(2, 0) == [0, 0];
    assert LE(3, 0) == [0, 0, 0];
  }

  /** The jump of the engine reaches its destination and does nothing else. */
  lemma JmpCodeRuns<D>(c: Machine<D>, m: Mem, at: nat, dest: nat, d: D)
    requires DecoderOk(c.arch, c.decode)
    requires at + JmpSize(c.arch) <= Modulus(c.arch) && dest < Modulus(c.arch)
    requires Read(m, at, JmpSize(c.arch)) == JmpCode(c.arch, at, dest)
    ensures var o := Step(c, m, at, d); o.ip == dest && Silent(o, d)
  {
    hide Step, Read, DecoderOk, DecoderTemplates, DecoderRip, DecoderLocal;
    if c.arch == X64 {
      var code := JmpCode(X64, at, dest);
      SmallLE(0);
      ReadPart(m, at, 14, 0, 6);
      ReadPart(m, at, 14, 6, 14);
      assert code[0..6] == [0xFF, 0x25] + LE(4, 0);
      assert code[6..14] == LE(8, dest);
      IndirectRuns(c, m, at, false, 0, dest, d);
    } else {
      JmpRelRuns(c, m, at, Trunc32(dest - (at + 5)), d);
      Displaced32(at + 5, dest);
    }
  }

  /** Control arriving at `at` goes on to `end`, and nothing else happens, in any state. */
  ghost predicate Hops<D(!new)>(c: Machine<D>, m: Mem, at: nat, end: nat) {
    forall d :: Step(c, m, at, d) == Out(end, None, true, d)
  }

  lemma HopRuns<D(!new)>(c: Machine<D>, m: Mem, at: nat, operand: Byte)
    requires DecoderOk(c.arch, c.decode)
    requires m(at) == 0xEB && m(at + 1) == operand && operand < 0x80 && at + 2 + operand < Modulus(c.arch)
    ensures Hops(c, m, at, at + 2 + operand)
  {
    forall d
      ensures Step(c, m, at, d) == Out(at + 2 + operand, None, true, d)
    {
      ShortJumpRuns(c, m, at, operand, d);
    }
  }

  /** CALL [RIP + 2], a hop over the literal, and the literal. */
  lemma CallIndirectRuns<D(!new)>(c: Machine<D>, m: Mem, at: nat, dest: nat, d: D)
    requires DecoderOk(c.arch, c.decode) && c.arch == X64 && dest < Modulus(X64)
    requires var code := CallCode(X64, at, dest); at + |code| < Modulus(X64) && Read(m, at, |code|) == code
    ensures var o := Step(c, m, at, d); o.ip == dest && o.data == d && o.push == Some(at + 6)
    ensures Hops(c, m, at + 6, at + 16)
  {
    hide Step, Read, DecoderOk, DecoderTemplates, DecoderRip, DecoderLocal;
    var code := CallCode(X64, at, dest);
    SmallLE(2);
    ReadPart(m, at, 16, 0, 6);
    ReadPart(m, at, 16, 8, 16);
    assert code[0..6] == [0xFF, 0x15] + LE(4, 2);
    assert code[8..16] == LE(8, dest);
    IndirectRuns(c, m, at, true, 2, dest, d);
    CodeByte(m, at, code, 6);
    CodeByte(m, at, code, 7);
    HopRuns(c, m, at + 6, 8);
  }

  /** The call of the engine reaches its destination; its return address leads to the end of the code. */
  lemma CallCodeRuns<D(!new)>(c: Machine<D>, m: Mem, at: nat, dest: nat, d: D)
    requires DecoderOk(c.arch, c.decode)
    requires dest < Modulus(c.arch)
    requires var code := CallCode(c.arch, at, dest); at + |code| < Modulus(c.arch) && Read(m, at, |code|) == code
    ensures var o := Step(c, m, at, d);
            o.ip == dest && o.data == d && o.push == Some(if c.arch == X64 then at + 6 else at + 5)
    ensures c.arch == X64 ==> Hops(c, m, at + 6, at + 16)
  {
    hide Step, Read, DecoderOk, DecoderTemplates, DecoderRip, DecoderLocal;
    if c.arch == X64 {
      CallIndirectRuns(c, m, at, dest, d);
    } else {
      CallRelRuns(c, m, at, Trunc32(dest - (at + 5)), d);
      Displaced32(at + 5, dest);
    }
  }

  lemma CallRelRuns<D>(c: Machine<D>, m: Mem, at: nat, operand: nat, d: D)
    requires DecoderOk(c.arch, c.decode)
    requires operand < 0x1_0000_0000 && Read(m, at, 5) == [0xE8] + LE(4, operand)
    ensures Step(c, m, at, d) == Out(Wrap(c.arch, at + 5 + Sext32(operand)), Some(Wrap(c.arch, at + 5)), true, d)
  {
    var code := [0xE8] + LE(4, operand);
    var w := Read(m, at, WINDOW);
    WindowByte(m, at, 0);
    CodeByte(m, at, code, 0);
    WindowField(m, at, code, 1, 5);
    assert code[1..5] == LE(4, operand);
    Pow256Values();
    LERoundTrip(4, operand);
    var h := c.decode(w);
    assert Reported(h, 5, 0xE8, 0, 0) && h.imm32 == operand;
  }

  lemma JccRelReport(arch: Arch, decode: Decoder, m: Mem, at: nat, cond: nat, operand: nat)
    requires DecoderTemplates(arch, decode)
    requires cond < 16 && operand < 0x1_0000_0000 && Read(m, at, 6) == [0x0F, 0x80 + cond] + LE(4, operand)
    ensures var h := decode(Read(m, at, WINDOW));
            Reported(h, 6, 0x0F, 0x80 + cond, 0) && h.imm32 == operand
  {
    var code := [0x0F, 0x80 + cond] + LE(4, operand);
    WindowByte(m, at, 0);
    WindowByte(m, at, 1);
    CodeByte(m, at, code, 0);
    CodeByte(m, at, code, 1);
    WindowField(m, at, code, 2, 6);
    assert code[2..6] == LE(4, operand);
    Pow256Values();
    LERoundTrip(4, operand);
  }

  lemma JccRelRuns<D>(c: Machine<D>, m: Mem, at: nat, cond: nat, operand: nat, d: D)
    requires DecoderOk(c.arch, c.decode)
    requires cond < 16 && operand < 0x1_0000_0000 && Read(m, at, 6) == [0x0F, 0x80 + cond] + LE(4, operand)
    ensures Step(c, m, at, d) ==
            Out(if Holds(c, cond, d) then Wrap(c.arch, at + 6 + Sext32(operand)) else Wrap(c.arch, at + 6),
                None, true, d)
  {
    hide Read, DecoderTemplates, DecoderRip, DecoderLocal, DecoderSane, LE, FromLE, Holds, Sext32;
    JccRelReport(c.arch, c.decode, m, at, cond, operand);
    var h := c.decode(Read(m, at, WINDOW));
    assert Cond(h) == cond;
  }

  lemma ShortJccRuns<D>(c: Machine<D>, m: Mem, at: nat, cond: nat, operand: Byte, d: D)
    requires DecoderOk(c.arch, c.decode)
    requires cond < 16 && m(at) == 0x70 + cond && m(at + 1) == operand
    ensures Step(c, m, at, d) ==
            Out(if Holds(c, cond, d) then Wrap(c.arch, at + 2 + Sext8(operand)) else Wrap(c.arch, at + 2),
                None, true, d)
  {
    WindowByte(m, at, 0);
    WindowByte(m, at, 1);
    var h := c.decode(Read(m, at, WINDOW));
    assert Reported(h, 2, 0x70 + cond, 0, 0);
    assert Cond(h) == cond;
  }

  lemma NegatedHolds<D>(c: Machine<D>, cond: nat, d: D)
    requires cond < 16
    ensures Negated(cond) < 16 && Holds(c, Negated(cond), d) == !Holds(c, cond, d)
  {
    assert Negated(cond) / 2 == cond / 2;
  }

  /** Where the engine's conditional jump ends up, after one instruction or two. */
  lemma JccCodeRuns<D>(c: Machine<D>, m: Mem, at: nat, cond: nat, dest: nat, d: D)
    requires DecoderOk(c.arch, c.decode)
    requires dest < Modulus(c.arch) && cond < 16
    requires var code := JccCode(c.arch, at, cond, dest); at + |code| < Modulus(c.arch) && Read(m, at, |code|) == code
    ensures var o := Step(c, m, at, d);
            && Silent(o, d) && o.direct
            && if c.arch == X86 then o.ip == if Holds(c, cond, d) then dest else at + 6
               else if !Holds(c, cond, d) then o.ip == at + 16
               else o.ip == at + 2 && var o2 := Step(c, m, o.ip, d); o2.ip == dest && Silent(o2, d)
  {
    hide Step, Read, DecoderOk, DecoderTemplates, DecoderRip, DecoderLocal, Holds, Negated;
    if c.arch == X64 {
      JccCode64Runs(c, m, at, cond, dest, d);
    } else {
      JccRelRuns(c, m, at, cond, Trunc32(dest - (at + 6)), d);
      Displaced32(at + 6, dest);
    }
  }

  /** The x64 form: a short jump of the opposite condition over an absolute jump. */
  lemma JccCode64Runs<D>(c: Machine<D>, m: Mem, at: nat, cond: nat, dest: nat, d: D)
    requires c.arch == X64 && DecoderOk(c.arch, c.decode)
    requires dest < Modulus(X64) && cond < 16
    requires at + 16 < Modulus(X64) && Read(m, at, 16) == JccCode(X64, at, cond, dest)
    ensures var o := Step(c, m, at, d);
            && Silent(o, d) && o.direct
            && if !Holds(c, cond, d) then o.ip == at + 16
               else o.ip == at + 2 && var o2 := Step(c, m, at + 2, d); o2.ip == dest && Silent(o2, d)
  {
    hide Step, Read, DecoderOk, DecoderTemplates, DecoderRip, DecoderLocal, Holds, Negated, LE;
    var code := JccCode(X64, at, cond, dest);
    CodeByte(m, at, code, 0);
    CodeByte(m, at, code, 1);
    NegatedHolds(c, cond, d);
    ShortJccRuns(c, m, at, Negated(cond), 0x0E, d);
    ReadPart(m, at, 16, 2, 16);
    assert code[2..16] == JmpCode(X64, at + 2, dest);
    JmpCodeRuns(c, m, at + 2, dest, d);
  }
}
