/** What the invariant of the hook engine means for the program that is hooked. */
module HookTheorems {
  import opened Bytes
  import opened Cpu
  import opened ProcessState
  import opened TrampolineSpec
  import opened TrampolineBuilder
  import opened TrampolineCode
  import opened TemplateRuns
  import opened TrampolineSim
  import opened SlotHeap
  import opened Buffer
  import opened HookSpec
  import opened HookRuns
  import opened HookOrigin
  import opened ThreadSpec
  import opened FrozenThreads

  // ---------- An enabled hook leads to the detour ----------

  /** Control at ip arrives at dest after n instructions that do nothing but move the instruction pointer. */
  ghost predicate Arrives<D>(c: Machine<D>, m: Mem, ip: nat, dest: nat, d: D, n: nat)
    decreases n
  {
    if n == 0 then ip == dest
    else
      var o := Step(c, m, ip, d);
      Silent(o, d) && Arrives(c, m, o.ip, dest, d, n - 1)
  }

  /** The instructions between a hooked function and the user's detour. */
  function Jumps(arch: Arch, e: HookEntry): nat {
    (if e.patchAbove then 1 else 0) + 1 + (if arch == X64 then 1 else 0)
  }

  lemma OneMore<D>(c: Machine<D>, m: Mem, ip: nat, via: nat, dest: nat, d: D, n: nat)
    requires var o := Step(c, m, ip, d); o.ip == via && Silent(o, d)
    requires Arrives(c, m, via, dest, d, n)
    ensures Arrives(c, m, ip, dest, d, n + 1)
  {
    hide Step;
  }

  /** The patch, taken apart. */
  lemma PatchParts(m: Mem, e: HookEntry)
    requires Read(m, PatchAddr(e), PatchLen(e)) == PatchBytes(e)
    ensures Read(m, PatchAddr(e), 5) == [0xE9] + LE(4, Trunc32(e.pDetour - (PatchAddr(e) + JMP_REL)))
    ensures e.patchAbove ==> m(e.pTarget) == 0xEB && m(e.pTarget + 1) == 0xF9
  {
    hide LE, Trunc32;
    ReadPart(m, PatchAddr(e), PatchLen(e), 0, 5);
    if e.patchAbove {
      var r := Read(m, PatchAddr(e), 7);
      assert r[5] == 0xEB && r[6] == 0xF9;
    }
  }

  /** The long jump of the patch lands on pDetour: its 32-bit operand is not truncated away. */
  lemma LongJumpLands<D>(c: Machine<D>, m: Mem, e: HookEntry, d: D)
    requires DecoderOk(c.arch, c.decode)
    requires JMP_REL < e.pTarget && e.pTarget + 64 <= Modulus(c.arch) && e.pDetour < Modulus(c.arch)
    requires c.arch == X64 ==> FitsInt32(e.pDetour - (PatchAddr(e) + JMP_REL))
    requires Read(m, PatchAddr(e), 5) == [0xE9] + LE(4, Trunc32(e.pDetour - (PatchAddr(e) + JMP_REL)))
    ensures var o := Step(c, m, PatchAddr(e), d); o.ip == e.pDetour && Silent(o, d)
  {
    hide Read, LE, DecoderOk, Step;
    var p := PatchAddr(e);
    JmpRelRuns(c, m, p, Trunc32(e.pDetour - (p + JMP_REL)), d);
    if c.arch == X64 {
      SextTrunc(e.pDetour - (p + JMP_REL));
    } else {
      Displaced32(p + 5, e.pDetour);
    }
  }

  /** The relay of an x64 hook lands on the user's detour. */
  lemma RelayLands<D>(c: Machine<D>, w: World, m: Mem, e: HookEntry, b: Build, d: D)
    requires c.arch == w.arch == X64 && c.decode == w.decode && DecoderOk(c.arch, c.decode)
    requires EntryOk(w, e, b) && SlotOk(w.arch, m, e, b)
    ensures var o := Step(c, m, e.pDetour, d); o.ip == b.detour && Silent(o, d)
  {
    Bounds(w, e, b);
    RelayFits(w, e, b);
    hide Layout, Listed, PatchOk, LengthOk, Apart, TargetOk, SlotHolds, Step, JmpCode, DecoderOk, OnCell;
    JmpCodeRuns(c, m, e.pDetour, b.detour, d);
  }

  lemma RelayFits(w: World, e: HookEntry, b: Build)
    requires w.arch == X64 && DecoderSane(w.arch, w.decode) && EntryOk(w, e, b)
    ensures e.pDetour + JmpSize(X64) <= e.pTrampoline + SlotSize(X64) <= Modulus(X64)
  {
    BoundariesFit(w.arch, w.decode, b.seen, e.pTarget, e.pTrampoline, b.cs);
    hide CopyOk, DecoderSane, Ends, BranchesKeepDistance, Chained, FitsInt32, OnCell, PatchOk, LengthOk;
  }

  lemma ShortJumpLands<D>(c: Machine<D>, m: Mem, at: nat, d: D)
    requires DecoderOk(c.arch, c.decode) && m(at) == 0xEB && m(at + 1) == 0xF9 && JMP_REL < at &&
             at + 64 <= Modulus(c.arch)
    ensures var o := Step(c, m, at, d); o.ip == at - JMP_REL && Silent(o, d)
  {
    hide DecoderOk, Step;
    ShortJumpRuns(c, m, at, 0xF9, d);
  }

  /** The jumps one after the other. */
  lemma ThroughJumps<D>(c: Machine<D>, m: Mem, e: HookEntry, detour: nat, d: D)
    requires var o := Step(c, m, PatchAddr(e), d); o.ip == e.pDetour && Silent(o, d)
    requires if c.arch == X64 then var o := Step(c, m, e.pDetour, d); o.ip == detour && Silent(o, d)
             else e.pDetour == detour
    requires e.patchAbove ==> var o := Step(c, m, e.pTarget, d); o.ip == PatchAddr(e) && Silent(o, d)
    ensures Arrives(c, m, e.pTarget, detour, d, Jumps(c.arch, e))
  {
    hide Step;
    assert Arrives(c, m, detour, detour, d, 0);
    var n := if c.arch == X64 then 1 else 0;
    if c.arch == X64 {
      OneMore(c, m, e.pDetour, detour, detour, d, 0);
    }
    OneMore(c, m, PatchAddr(e), e.pDetour, detour, d, n);
    if e.patchAbove {
      OneMore(c, m, e.pTarget, PatchAddr(e), detour, d, n + 1);
    }
  }

  /** Execution at the target of an enabled hook reaches the user's detour, and nothing else happens on the way. */
  lemma EnabledHookReachesDetour<D>(c: Machine<D>, w: World, s: HookState, i: nat, d: D)
    requires c.arch == w.arch && c.decode == w.decode && DecoderOk(c.arch, c.decode)
    requires Inv(w, s) && i < |s.items| && s.items[i].isEnabled
    ensures Arrives(c, s.mem, s.items[i].pTarget, s.builds[i].detour, d, Jumps(w.arch, s.items[i]))
  {
    hide Inv, EntryOk, DecoderTemplates, DecoderLocal, DecoderRip, DecoderSane, PatchBytes, Step, OnCell, Apart,
         SlotOk, Arrives, Jumps;
    EntryFacts(w, s, i);
    var e, b := s.items[i], s.builds[i];
    DetourInRange(w, e, b);
    PatchParts(s.mem, e);
    LongJumpLands(c, s.mem, e, d);
    if c.arch == X64 {
      RelayLands(c, w, s.mem, e, b, d);
    }
    if e.patchAbove {
      ShortJumpLands(c, s.mem, e.pTarget, d);
    }
    ThroughJumps(c, s.mem, e, b.detour, d);
  }

  lemma DetourInRange(w: World, e: HookEntry, b: Build)
    requires DecoderSane(w.arch, w.decode) && EntryOk(w, e, b)
    ensures e.pDetour < Modulus(w.arch) && JMP_REL < e.pTarget && e.pTarget + 64 <= Modulus(w.arch)
    ensures w.arch == X64 ==> FitsInt32(e.pDetour - (PatchAddr(e) + JMP_REL))
    ensures w.arch == X86 ==> e.pDetour == b.detour
  {
    Bounds(w, e, b);
    hide Layout, Listed, PatchOk, DecoderSane, OnCell;
  }

  lemma EntryFacts(w: World, s: HookState, i: nat)
    requires Inv(w, s) && i < |s.items|
    ensures |s.builds| == |s.items| && EntryOk(w, s.items[i], s.builds[i]) &&
            SlotOk(w.arch, s.mem, s.items[i], s.builds[i])
    ensures s.items[i].backup == Read(w.orig, PatchAddr(s.items[i]), PatchLen(s.items[i]))
    ensures s.items[i].isEnabled ==> Read(s.mem, PatchAddr(s.items[i]), PatchLen(s.items[i])) == PatchBytes(s.items[i])
  {
    hide EntryOk, SlotOk, PatchBytes, AllSeparate, SlotsOwned, IsCapacity, Read;
  }

  // ---------- A disabled hook is not there, a patch covers nothing else ----------

  /** The window of a disabled hook holds the original code. */
  lemma DisabledHookIsOriginal(w: World, s: HookState, i: nat)
    requires Inv(w, s) && i < |s.items| && !s.items[i].isEnabled
    ensures Read(s.mem, PatchAddr(s.items[i]), PatchLen(s.items[i])) ==
            Read(w.orig, PatchAddr(s.items[i]), PatchLen(s.items[i]))
  {
    EntryFacts(w, s, i);
    var e := s.items[i];
    hide EntryOk, AllEntriesOk, SlotOk, AllSlotsOk, PatchBytes, SlotsOwned, AllSeparate, AllBackedUp, IsCapacity,
         InWindow;
    forall x | InWindow(e, x)
      ensures s.mem(x) == w.orig(x)
    {
      WindowIsCode(w, e, s.builds[i], x);
      if j :| 0 <= j < |s.items| && s.items[j].isEnabled && InWindow(s.items[j], x) {
        PairSeparate(s.items, i, j);
        WindowsDisjoint(e, s.items[j], x);
      }
    }
    WindowAgrees(s.mem, w.orig, e);
  }

  lemma WindowAgrees(m: Mem, m': Mem, e: HookEntry)
    requires forall x :: InWindow(e, x) ==> m(x) == m'(x)
    ensures Read(m, PatchAddr(e), PatchLen(e)) == Read(m', PatchAddr(e), PatchLen(e))
  {
    ReadAgree(m, m', PatchAddr(e), PatchLen(e));
  }

  /** Every byte a patch overwrites belonged to a copied instruction or to padding, as the builder saw them. */
  lemma PatchCoversSeenCode(w: World, s: HookState, i: nat, x: int)
    requires DecoderSane(w.arch, w.decode) && Inv(w, s) && i < |s.items| == |s.builds| && InWindow(s.items[i], x)
    ensures var e, b := s.items[i], s.builds[i];
            Copied(e.pTarget, b.cs, x) || InPadding(b.seen, PatchAddr(e), PatchAddr(e) + PatchLen(e), x)
  {
    EntryFacts(w, s, i);
    var e, b := s.items[i], s.builds[i];
    hide Inv, Layout, Listed, DetourOk, Apart, TargetOk, SlotOk, DecoderSane, Room, Patchable;
    PatchIsSafe(w.arch, w.decode, b.seen, w.executable, e.pTarget, e.pTrampoline, b.cs, x);
  }

  /**
   After any run of API calls, every byte that the patch of a hook covers belonged to an instruction that
   its trampoline replaces, or is padding in the program itself.
   */
  lemma PatchCoversCopiedCode(w: World, states: seq<HookState>, calls: seq<Call>, results: seq<Status>, n: nat, i: nat,
                              x: int)
    requires DecoderSane(w.arch, w.decode)
    requires IsRun(w, states, calls, results) && Initial(w, states[0]) && n < |states|
    requires i < |states[n].items| && InWindow(states[n].items[i], x)
    ensures i < |states[n].builds|
    ensures var e, b := states[n].items[i], states[n].builds[i];
            Copied(e.pTarget, b.cs, x) || InPadding(w.orig, PatchAddr(e), PatchAddr(e) + PatchLen(e), x)
    ensures Copied(states[n].items[i].pTarget, states[n].builds[i].cs, x)
            || w.orig(x) == 0x00 || w.orig(x) == 0x90 || w.orig(x) == 0xCC
  {
    hide Inv, DecoderSane, ApiStep, Admissible, Copied;
    RunSeesOriginal(w, states, calls, results, n, false);
    PatchCoversSeenCode(w, states[n], i, x);
    PaddingOfProgram(w, states[n].items[i], states[n].builds[i], x);
  }

  lemma PaddingOfProgram(w: World, e: HookEntry, b: Build, x: int)
    requires SeenOriginal(w, e, b, false)
    ensures InPadding(b.seen, PatchAddr(e), PatchAddr(e) + PatchLen(e), x) ==>
              InPadding(w.orig, PatchAddr(e), PatchAddr(e) + PatchLen(e), x)
  {
    var lo, hi := PatchAddr(e), PatchAddr(e) + PatchLen(e);
    if a, n: nat :| lo <= a <= x < a + n <= hi && SameBytes(b.seen, a, n, x) {
      forall y | a <= y < a + n
        ensures w.orig(y) == b.seen(y)
      {
        assert Looked(e, false, y);
      }
      assert SameBytes(w.orig, a, n, x);
    }
  }

  /**
   After a run in which hooked functions keep 45 bytes apart, every trampoline is a complete relocation of
   the program's own code, whatever was hooked when it was built.
   */
  lemma TrampolineOfProgram(w: World, states: seq<HookState>, calls: seq<Call>, results: seq<Status>, n: nat, i: nat)
    requires DecoderSane(w.arch, w.decode)
    requires IsRun(w, states, calls, results) && Initial(w, states[0]) && n < |states|
    requires SpacedRun(states, calls) && i < |states[n].items|
    ensures Inv(w, states[n]) && Inv(w, OnOriginal(w, states[n])) && i < |states[n].builds|
    ensures var e, b := states[n].items[i], states[n].builds[i];
            && Layout(w.arch, w.decode, w.orig, e.pTarget, e.pTrampoline, b.cs)
            && Patchable(w.orig, w.executable, e.pTarget, b.cs)
            && SourceEnd(b.cs) == CodeLength(w.arch, w.decode, w.orig, e.pTarget, 0, 0)
  {
    hide Inv, DecoderSane, ApiStep, Admissible, Layout, Patchable, CodeLength, SourceEnd, Room, Apart, TargetOk,
         Listed, SlotOk, AllSeenOriginal, Spaced;
    var s := states[n];
    RunSeesOriginal(w, states, calls, results, n, true);
    InvOnOriginal(w, s);
    EntryFacts(w, OnOriginal(w, s), i);
  }

  // ---------- The trampolines of the table mean what the targets meant ----------

  lemma EntryBuilt<D>(c: Machine<D>, w: World, s: HookState, i: nat)
    requires c.arch == w.arch && c.decode == w.decode && DecoderOk(c.arch, c.decode)
    requires Inv(w, s) && i < |s.items| == |s.builds|
    ensures var e, b := s.items[i], s.builds[i];
            Built(c, b.seen, s.mem, e.pTarget, e.pTrampoline, b.cs) && JMP_REL <= e.pTrampoline
  {
    EntryFacts(w, s, i);
    hide Inv, DecoderOk, Listed, PatchOk, LengthOk, DetourOk, Apart, OnCell, CopyOk, Ends, BranchesKeepDistance,
         Chained;
  }

  /** A thread that is moved from boundary k of a target to the trampoline goes on as in the code that was copied. */
  lemma MovedThreadFollows<D(!new)>(c: Machine<D>, w: World, s: HookState, i: nat, k: nat, ip: nat, d: D, n: nat)
    requires c.arch == w.arch && c.decode == w.decode && DecoderOk(c.arch, c.decode)
    requires Inv(w, s) && i < |s.items| == |s.builds|
    requires var e, b := s.items[i], s.builds[i];
             && TablesOk(e) && OldBoundary(e, ip, k) && k < |b.cs|
             && CodeMovable(c.arch, c.decode, b.seen, s.mem, e.pTarget)
             && var o := OriginalRun(c, b.seen, e.pTarget, b.cs, k, d, n);
                o.Some? && !InSlot(e.pTrampoline, b.cs, o.value.ip)
    ensures var e, b := s.items[i], s.builds[i];
            SameExit(c, s.mem, e.pTarget, e.pTrampoline, b.cs, OriginalRun(c, b.seen, e.pTarget, b.cs, k, d, n).value,
                     SlotRun(c, s.mem, e.pTrampoline, b.cs, NewIp(e, ip), d, 2 * n))
  {
    hide Inv, DecoderTemplates, DecoderLocal, DecoderRip, DecoderSane, EntryOk, Built, Movable, SlotOk, SameExit,
         OriginalRun, SlotRun, InSlot, PatchBytes, Read, NewIp;
    EntryFacts(w, s, i);
    EntryBuilt(c, w, s, i);
    var e, b := s.items[i], s.builds[i];
    NewIpExact(w, e, b, ip);
    BoundaryListed(w, e, b, k);
    EntryMovable(c, w, s, i);
    RunSimulated(c, b.seen, s.mem, e.pTarget, e.pTrampoline, b.cs, k, d, n);
  }

  /**
   After a run in which hooked functions keep 45 bytes apart, a thread that is moved from boundary k of a
   target to the trampoline goes on as it would have in the unhooked program; for boundary 0 this is a
   call of the trampoline, the pointer that MH_CreateHook hands to the caller. The program's own code has
   to be such that it can be moved.
   */
  lemma MovedThreadContinues<D(!new)>(c: Machine<D>, w: World, states: seq<HookState>, calls: seq<Call>,
                                      results: seq<Status>, at: nat, i: nat, k: nat, ip: nat, d: D, n: nat)
    requires c.arch == w.arch && c.decode == w.decode && DecoderOk(c.arch, c.decode)
    requires IsRun(w, states, calls, results) && Initial(w, states[0]) && at < |states| && SpacedRun(states, calls)
    requires i < |states[at].items| == |states[at].builds|
    requires var e, b := states[at].items[i], states[at].builds[i];
             && TablesOk(e) && OldBoundary(e, ip, k) && k < |b.cs|
             && CodeMovable(c.arch, c.decode, w.orig, states[at].mem, e.pTarget)
             && var o := OriginalRun(c, w.orig, e.pTarget, b.cs, k, d, n);
                o.Some? && !InSlot(e.pTrampoline, b.cs, o.value.ip)
    ensures var e, b := states[at].items[i], states[at].builds[i];
            SameExit(c, states[at].mem, e.pTarget, e.pTrampoline, b.cs,
                     OriginalRun(c, w.orig, e.pTarget, b.cs, k, d, n).value,
                     SlotRun(c, states[at].mem, e.pTrampoline, b.cs, NewIp(e, ip), d, 2 * n))
  {
    hide Inv, DecoderTemplates, DecoderLocal, DecoderRip, DecoderSane, SameExit, OriginalRun, SlotRun, InSlot, NewIp,
         TablesOk, OldBoundary, CodeMovable, ApiStep, Admissible, Layout, Patchable, CodeLength, SourceEnd, SpacedRun;
    TrampolineOfProgram(w, states, calls, results, at, i);
    MovedThreadFollows(c, w, OnOriginal(w, states[at]), i, k, ip, d, n);
  }

  /** An entry whose code is movable has copies that are faithful. */
  lemma EntryMovable<D>(c: Machine<D>, w: World, s: HookState, i: nat)
    requires c.arch == w.arch && c.decode == w.decode && DecoderOk(c.arch, c.decode)
    requires Inv(w, s) && i < |s.items| == |s.builds|
    requires CodeMovable(c.arch, c.decode, s.builds[i].seen, s.mem, s.items[i].pTarget)
    ensures var e, b := s.items[i], s.builds[i];
            forall j :: 0 <= j < |b.cs| && !Closing(b.cs[j]) ==>
              Movable(c.arch, b.seen, s.mem, e.pTarget, e.pTrampoline, b.cs, j)
  {
    EntryFacts(w, s, i);
    var e, b := s.items[i], s.builds[i];
    hide Inv, DecoderTemplates, DecoderLocal, DecoderRip, DecoderSane, CodeMovable, Movable, SlotOk, Layout, Listed,
         PatchOk, DetourOk, Apart, TargetOk, OnCell, SlotNear, CodeLength, SourceEnd, Read, PatchBytes;
    forall j | 0 <= j < |b.cs| && !Closing(b.cs[j])
      ensures Movable(c.arch, b.seen, s.mem, e.pTarget, e.pTrampoline, b.cs, j)
    {
      MovableFromCode(c.arch, c.decode, b.seen, s.mem, e.pTarget, e.pTrampoline, b.cs, j);
    }
  }

  lemma BoundaryListed(w: World, e: HookEntry, b: Build, k: nat)
    requires EntryOk(w, e, b) && k < |b.cs|
    ensures k < e.nIP <= |e.newIPs| && e.newIPs[k] == b.cs[k].newPos
  {
    hide Layout, PatchOk, LengthOk, DetourOk, Apart, TargetOk, OnCell;
  }

  // ---------- The code as a whole ----------

  /** The original bytes with the patches of the enabled hooks written over them, in table order. */
  function Overlay(orig: Mem, items: seq<HookEntry>): Mem {
    if items == [] then orig
    else
      var front, last := Overlay(orig, items[..|items| - 1]), items[|items| - 1];
      if last.isEnabled then Write(front, PatchAddr(last), PatchBytes(last)) else front
  }

  lemma {:induction false} OverlayOutside(orig: Mem, items: seq<HookEntry>, x: int)
    requires !Patched(items, x)
    ensures Overlay(orig, items)(x) == orig(x)
  {
    if items != [] {
      var front, last := items[..|items| - 1], items[|items| - 1];
      WindowSize(last);
      hide PatchBytes;
      assert forall i :: 0 <= i < |front| ==> front[i] == items[i];
      OverlayOutside(orig, front, x);
    }
  }

  lemma {:induction false} OverlayInside(orig: Mem, items: seq<HookEntry>, i: nat, x: int)
    requires AllSeparate(items) && i < |items| && items[i].isEnabled && InWindow(items[i], x)
    ensures Overlay(orig, items)(x) == PatchBytes(items[i])[x - PatchAddr(items[i])]
  {
    var front, last := items[..|items| - 1], items[|items| - 1];
    WindowSize(items[i]);
    WindowSize(last);
    hide PatchBytes, Separate;
    if i < |items| - 1 {
      assert front[i] == items[i];
      assert AllSeparate(front);
      OverlayInside(orig, front, i, x);
      PairSeparate(items, i, |items| - 1);
      WindowsDisjoint(items[i], last, x);
    }
  }

  /** The code bytes are those of the overlay, whatever the order in which the hooks were switched. */
  lemma CodeIsOverlay(w: World, s: HookState, x: int)
    requires Inv(w, s) && w.code(x)
    ensures s.mem(x) == Overlay(w.orig, s.items)(x)
  {
    hide EntryOk, SlotOk, SlotsOwned, IsCapacity, AllBackedUp, AllEntriesOk, AllSlotsOk, PatchBytes, AllSeparate;
    if i :| 0 <= i < |s.items| && s.items[i].isEnabled && InWindow(s.items[i], x) {
      WindowSize(s.items[i]);
      OverlayInside(w.orig, s.items, i, x);
      assert Read(s.mem, PatchAddr(s.items[i]), PatchLen(s.items[i]))[x - PatchAddr(s.items[i])] == s.mem(x);
    } else {
      OverlayOutside(w.orig, s.items, x);
    }
  }

  /** After any run of API calls every code byte is the original one or that of an enabled hook's patch. */
  lemma RunCodeIsOverlay(w: World, states: seq<HookState>, calls: seq<Call>, results: seq<Status>, n: nat, x: int)
    requires DecoderSane(w.arch, w.decode)
    requires IsRun(w, states, calls, results) && Initial(w, states[0]) && n < |states| && w.code(x)
    ensures states[n].mem(x) == Overlay(w.orig, states[n].items)(x)
  {
    hide Inv, ApiStep, Admissible, DecoderSane, Initial, Overlay;
    RunKeepsInv(w, states, calls, results, n);
    CodeIsOverlay(w, states[n], x);
  }

  // ---------- Suspended threads ----------

  lemma InvSpread(w: World, s: HookState)
    requires Inv(w, s) && DisjointRegions(s.items)
    ensures Spread(w, s.items, s.builds)
  {
    hide EntryOk, SlotOk, AllSlotsOk, CodeShows, IsCapacity, AllBackedUp, SlotsOwned, TablesOk;
    forall i | 0 <= i < |s.items|
      ensures TablesOk(s.items[i])
    {
      EntryTables(w, s.items[i], s.builds[i]);
    }
    forall i, j | 0 <= i < j < |s.items|
      ensures s.items[i].pTrampoline != s.items[j].pTrampoline
    {
      assert Separate(s.items[i], s.items[j]);
    }
  }

  /** Freeze finds thread t and can open it, read its context and write it back. */
  ghost predicate Reached(sys: Threading, list: seq<int>, t: int) {
    t in list && sys.canOpen(t) && sys.canGet(t) && forall i :: sys.canSet(t, i)
  }

  /** A thread that Freeze reaches is left where the hooks' tables put it. */
  lemma ReachedMoves(arch: Arch, items: seq<HookEntry>, lo: nat, hi: nat, action: Action, sys: Threading,
                     list: seq<int>, before: map<int, Thread>, frozen: map<int, Thread>, t: int)
    requires lo <= hi <= |items| && AllTablesOk(items)
    requires FrozenAll(arch, items, lo, hi, action, sys, list, before, frozen) && Reached(sys, list, t) && t in before
    ensures t in frozen && frozen[t].ip == MoveThrough(arch, items, lo, hi, action, before[t].ip)
  {
    StoredFully(arch, items, lo, hi, action, sys, t, before[t].ip);
    hide StoredIp, MoveThrough;
  }

  /** After the Freeze of an enabling operation no thread is inside a patch window about to be written. */
  lemma FrozenClear(w: World, s: HookState, lo: nat, hi: nat, action: Action, sys: Threading, list: seq<int>,
                    before: map<int, Thread>, frozen: map<int, Thread>, t: int, i: nat)
    requires DecoderSane(w.arch, w.decode) && Inv(w, s) && DisjointRegions(s.items)
    requires lo <= hi <= |s.items| && AllTablesOk(s.items) &&
             FrozenAll(w.arch, s.items, lo, hi, action, sys, list, before, frozen)
    requires Reached(sys, list, t) && t in frozen && t in before
    requires AtBoundaries(s.items, lo, hi, action, before[t].ip)
    requires lo <= i < hi && ToBeEnabled(action, s.items[i])
    ensures !InWindow(s.items[i], frozen[t].ip)
  {
    InvSpread(w, s);
    hide Inv, DecoderSane, Spread, MoveThrough, TablesOk, InWindow, AtBoundaries, DisjointRegions;
    ReachedMoves(w.arch, s.items, lo, hi, action, sys, list, before, frozen, t);
    NoThreadInWindow(w, s.items, s.builds, lo, hi, action, before[t].ip, i);
  }

  lemma MovesOutOfSlot(w: World, e: HookEntry, b: Build, ip: nat)
    requires DecoderSane(w.arch, w.decode) && EntryOk(w, e, b) && TablesOk(e) && e.isEnabled
    requires InSlotOf(w.arch, e, ip) ==> (exists k :: NewBoundary(e, ip, k)) || (w.arch == X64 && ip == e.pDetour)
    ensures !InSlotOf(w.arch, e, MoveIp(w.arch, ACTION_DISABLE, e, ip))
  {
    hide EntryOk, DecoderSane, MoveIp, NewBoundary;
    var r := MoveIp(w.arch, ACTION_DISABLE, e, ip);
    if InSlotOf(w.arch, e, ip) {
      NoThreadInSlot(w, e, b, ip);
    } else if r != ip {
      MoveStaysNear(w, ACTION_DISABLE, e, b, ip);
      NearCode(w, e, b, r);
    }
  }

  /** After the Freeze of MH_RemoveHook for an enabled hook no thread is inside the slot about to be freed. */
  lemma FrozenOutOfSlot(w: World, s: HookState, pos: nat, sys: Threading, list: seq<int>, before: map<int, Thread>,
                        frozen: map<int, Thread>, t: int)
    requires DecoderSane(w.arch, w.decode) && Inv(w, s) && pos < |s.items| && s.items[pos].isEnabled
    requires AllTablesOk(s.items) && FrozenAll(w.arch, s.items, pos, pos + 1, ACTION_DISABLE, sys, list, before, frozen)
    requires Reached(sys, list, t) && t in frozen && t in before
    requires var e, ip := s.items[pos], before[t].ip;
             InSlotOf(w.arch, e, ip) ==> (exists k :: NewBoundary(e, ip, k)) || (w.arch == X64 && ip == e.pDetour)
    ensures !InSlotOf(w.arch, s.items[pos], frozen[t].ip)
  {
    hide Inv, DecoderSane, EntryOk, SlotOk, MoveIp, TablesOk, InSlotOf, NewBoundary, Read, PatchBytes, FrozenAll,
         Reached, StoredIp;
    EntryFacts(w, s, pos);
    ReachedMoves(w.arch, s.items, pos, pos + 1, ACTION_DISABLE, sys, list, before, frozen, t);
    MovesOutOfSlot(w, s.items[pos], s.builds[pos], before[t].ip);
    assert MoveThrough(w.arch, s.items, pos + 1, pos + 1, ACTION_DISABLE,
           MoveIp(w.arch, ACTION_DISABLE, s.items[pos], before[t].ip))
        == MoveIp(w.arch, ACTION_DISABLE, s.items[pos], before[t].ip);
  }

  /**
   After the Freeze of MH_Uninitialize a reached thread that was inside the slot of some hook is
   outside it exactly when that hook was enabled and the thread stood at a recorded boundary or at
   the relay. The slots of all hooks are freed next, those of disabled hooks included.
   */
  lemma FrozenOutOfSlots(w: World, s: HookState, sys: Threading, list: seq<int>, before: map<int, Thread>,
                         frozen: map<int, Thread>, t: int, i: nat)
    requires DecoderSane(w.arch, w.decode) && Inv(w, s) && DisjointRegions(s.items) && AllTablesOk(s.items)
    requires FrozenAll(w.arch, s.items, 0, |s.items|, ACTION_DISABLE, sys, list, before, frozen)
    requires Reached(sys, list, t) && t in frozen && t in before
    requires i < |s.items| && InSlotOf(w.arch, s.items[i], before[t].ip)
    ensures var e, ip := s.items[i], before[t].ip;
            !InSlotOf(w.arch, e, frozen[t].ip) <==>
              e.isEnabled && ((exists k :: NewBoundary(e, ip, k)) || (w.arch == X64 && ip == e.pDetour))
  {
    InvSpread(w, s);
    hide Inv, DecoderSane, Spread, MoveThrough, TablesOk, InSlotOf, NewBoundary, DisjointRegions;
    ReachedMoves(w.arch, s.items, 0, |s.items|, ACTION_DISABLE, sys, list, before, frozen, t);
    NoThreadInSlots(w, s.items, s.builds, before[t].ip, i);
  }

  /**
   After the Freeze of a disabling operation a reached thread inside a window about to be restored stands at a
   boundary.
   */
  lemma FrozenAtBoundary(w: World, s: HookState, lo: nat, hi: nat, action: Action, sys: Threading, list: seq<int>,
                         before: map<int, Thread>, frozen: map<int, Thread>, t: int, i: nat)
    requires DecoderSane(w.arch, w.decode) && Inv(w, s) && DisjointRegions(s.items)
    requires lo <= hi <= |s.items| && AllTablesOk(s.items)
    requires FrozenAll(w.arch, s.items, lo, hi, action, sys, list, before, frozen)
    requires Reached(sys, list, t) && t in frozen && t in before
    requires AtPatches(s.items, lo, hi, action, before[t].ip)
    requires lo <= i < hi && ToBeDisabled(action, s.items[i])
    ensures var e, r := s.items[i], frozen[t].ip;
            && (InWindow(e, before[t].ip) ==> r == e.pTarget)
            && (InWindow(e, r) ==> exists k :: OldBoundary(e, r, k))
  {
    InvSpread(w, s);
    hide Inv, DecoderSane, Spread, MoveThrough, TablesOk, InWindow, AtPatches, OldBoundary, DisjointRegions;
    ReachedMoves(w.arch, s.items, lo, hi, action, sys, list, before, frozen, t);
    ThreadsInRestoredWindow(w, s.items, s.builds, lo, hi, action, before[t].ip, i);
  }

  // ---------- Hooks that overlap ----------

  /** In this program, the patch of f is whole after e and f have been enabled and e has been disabled again. */
  ghost predicate PatchSurvives(program: Mem, e: HookEntry, f: HookEntry) {
    var both := Write(Write(program, PatchAddr(e), PatchBytes(e)), PatchAddr(f), PatchBytes(f));
    var restored := Write(both, PatchAddr(e), Read(program, PatchAddr(e), PatchLen(e)));
    Read(restored, PatchAddr(f), PatchLen(f)) == PatchBytes(f)
  }

  lemma SurvivesBytewise(program: Mem, e: HookEntry, f: HookEntry)
    ensures PatchSurvives(program, e, f) <==>
            forall x :: InWindow(e, x) && InWindow(f, x) ==> program(x) == PatchBytes(f)[x - PatchAddr(f)]
  {
    WindowSize(e);
    WindowSize(f);
    hide PatchBytes;
    var both := Write(Write(program, PatchAddr(e), PatchBytes(e)), PatchAddr(f), PatchBytes(f));
    var m, bs := Write(both, PatchAddr(e), Read(program, PatchAddr(e), PatchLen(e))), PatchBytes(f);
    assert forall x :: InWindow(f, x) ==> m(x) == if InWindow(e, x) then program(x) else bs[x - PatchAddr(f)];
    var r := Read(m, PatchAddr(f), PatchLen(f));
    assert forall x :: InWindow(f, x) ==> r[x - PatchAddr(f)] == m(x);
  }

  lemma PatchBegins(e: HookEntry)
    ensures |PatchBytes(e)| == PatchLen(e) && PatchBytes(e)[0] == 0xE9
  {
    hide LE, Trunc32;
  }

  /**
   Disabling hook e leaves the patch of f whole in every program if and only if their windows do not
   overlap. If f's patch begins under e's, it is lost unless the program itself has a long jump there; and of two
   windows that overlap, one begins under the other.
   */
  lemma OverlappingHooks(e: HookEntry, f: HookEntry)
    ensures (forall program: Mem :: PatchSurvives(program, e, f)) <==> forall x :: InWindow(e, x) ==> !InWindow(f, x)
    ensures InWindow(e, PatchAddr(f)) ==>
              forall program: Mem :: program(PatchAddr(f)) != 0xE9 ==> !PatchSurvives(program, e, f)
    ensures (exists x :: InWindow(e, x) && InWindow(f, x)) ==> InWindow(e, PatchAddr(f)) || InWindow(f, PatchAddr(e))
  {
    PatchBegins(f);
    forall program: Mem
      ensures PatchSurvives(program, e, f) <==>
              forall x :: InWindow(e, x) && InWindow(f, x) ==> program(x) == PatchBytes(f)[x - PatchAddr(f)]
    {
      SurvivesBytewise(program, e, f);
    }
    hide PatchBytes, PatchSurvives;
    if x :| InWindow(e, x) && InWindow(f, x) {
      var program: Mem := y => if PatchBytes(f)[x - PatchAddr(f)] == 0 then 1 else 0;
      assert !PatchSurvives(program, e, f);
    }
  }
}
