/**
 Hooks written out. One enabled hook shows that the invariant of the engine has states with hooks in
 them, on both processors. Two functions nine bytes apart show why hooks have to keep ten: both can
 be hooked, and disabling one hook breaks the other.
 */
module HookExample {
  import opened Bytes
  import opened Cpu
  import opened TrampolineSpec
  import opened TrampolineBuilder
  import opened TrampolineCode
  import opened TrampolineLimits
  import opened SlotHeap
  import opened HookSpec
  import opened HookRuns
  import opened HookTheorems
  import opened ProcessState
  import opened ThreadSpec
  import opened FrozenThreads

  const FUNCTION: nat := 0x401000
  const NEIGHBOUR: nat := 0x401009
  const PLACE: nat := 0x300040
  const OTHER_PLACE: nat := 0x300080
  const DETOUR: nat := 0x500000

  /** NOP, RET and padding; nine bytes on NOP and RET again, with no padding behind them. */
  const CODE: seq<Byte> := [0x90, 0xC3, 0x90, 0x90, 0x90, 0x90, 0x90, 0x90, 0x90, 0x90, 0xC3, 0xC3]
  const PROGRAM: Mem := Write(x => 0x90, FUNCTION, CODE)

  function Setting(arch: Arch): World {
    World(arch, SmallDecoder(arch), PROGRAM, x => FUNCTION - 64 <= x < FUNCTION + 64, x => true)
  }

  const NOTHING: Hde := Hde(1, false, 0x90, 0, 0, 0, 0, 0, 0)
  const RETURN: Hde := Hde(1, false, 0xC3, 0, 0, 0, 0, 0, 0)
  const COPIES: seq<Copy> := [Copy(0, 0, NOTHING, [0x90]), Copy(1, 1, RETURN, [0xC3])]
  const BUILT: Build := Build(COPIES, PROGRAM, DETOUR)

  /** The function has its patch on it, its neighbour has it above. */
  predicate Placed(target: nat, place: nat, above: bool) {
    (target == FUNCTION && place == PLACE && !above) || (target == NEIGHBOUR && place == OTHER_PLACE && above)
  }

  function Entry(arch: Arch, target: nat, place: nat, above: bool, enabled: bool): HookEntry {
    HookEntry(target, if arch == X64 then place + 2 else DETOUR, place,
              Read(PROGRAM, PatchStart(target, above), PatchSize(above)), above, enabled, enabled,
              2, [0, 1, 0, 0, 0, 0, 0, 0], [0, 1, 0, 0, 0, 0, 0, 0])
  }

  function First(arch: Arch, enabled: bool): HookEntry {
    Entry(arch, FUNCTION, PLACE, false, enabled)
  }

  function Second(arch: Arch, enabled: bool): HookEntry {
    Entry(arch, NEIGHBOUR, OTHER_PLACE, true, enabled)
  }

  function SlotCode(arch: Arch, place: nat): seq<Byte> {
    [0x90, 0xC3] + if arch == X64 then JmpCode(X64, place + 2, DETOUR) else []
  }

  // ---------- What holds of each hook ----------

  /** The two instructions of both functions. */
  predicate ShortFunction(target: nat) {
    PROGRAM(target) == 0x90 && PROGRAM(target + 1) == 0xC3
  }

  lemma Decoded(arch: Arch, target: nat)
    requires ShortFunction(target)
    ensures SmallDecoder(arch)(Read(PROGRAM, target, WINDOW)) == NOTHING && Read(PROGRAM, target, 1) == [0x90]
    ensures SmallDecoder(arch)(Read(PROGRAM, target + 1, WINDOW)) == RETURN && Read(PROGRAM, target + 1, 1) == [0xC3]
  {
    assert Read(PROGRAM, target, WINDOW)[0] == 0x90 && Read(PROGRAM, target + 1, WINDOW)[0] == 0xC3;
  }

  lemma CopiesLaidOut(arch: Arch, target: nat, place: nat)
    requires ShortFunction(target)
    ensures Layout(arch, SmallDecoder(arch), PROGRAM, target, place, COPIES)
  {
    hide CopyOk, Dest, Read, Write, SmallDecoder, Classify, ShortFunction;
    FirstCopied(arch, target, place);
    SecondCopied(arch, target, place);
    assert InternalDest(arch, target, COPIES[0]) == 0 && InternalDest(arch, target, COPIES[1]) == 0;
  }

  lemma FirstCopied(arch: Arch, target: nat, place: nat)
    requires ShortFunction(target)
    ensures CopyOk(arch, SmallDecoder(arch), PROGRAM, target, place, COPIES[0]) && Classify(arch, NOTHING) == Plain
  {
    hide SmallDecode, SmallDecoder, Read, JmpCode, CallCode, JccCode, Dest, LE, ShortFunction;
    Decoded(arch, target);
  }

  lemma SecondCopied(arch: Arch, target: nat, place: nat)
    requires ShortFunction(target)
    ensures CopyOk(arch, SmallDecoder(arch), PROGRAM, target, place, COPIES[1]) && Classify(arch, RETURN) == Ret
  {
    hide SmallDecode, SmallDecoder, Read, JmpCode, CallCode, JccCode, Dest, LE, ShortFunction;
    Decoded(arch, target);
  }

  lemma LengthsAgree(arch: Arch, target: nat, place: nat, above: bool, enabled: bool)
    requires ShortFunction(target)
    ensures LengthOk(Setting(arch), Entry(arch, target, place, above, enabled), BUILT)
  {
    hide SmallDecode, SmallDecoder, Read, Write, Dest, ShortFunction, CodeLength;
    if DecoderSane(arch, SmallDecoder(arch)) {
      LengthIsTwo(arch, target);
    }
  }

  lemma LengthIsTwo(arch: Arch, target: nat)
    requires ShortFunction(target) && DecoderSane(arch, SmallDecoder(arch))
    ensures CodeLength(arch, SmallDecoder(arch), PROGRAM, target, 0, 0) == 2
  {
    hide SmallDecode, SmallDecoder, Read, Write, Dest, ShortFunction, DecoderSane;
    Decoded(arch, target);
    assert InstrAt(SmallDecoder(arch), PROGRAM, target, 1) == RETURN;
    assert CodeLength(arch, SmallDecoder(arch), PROGRAM, target, 1, 0) == 2;
  }

  lemma PatchFits(arch: Arch, target: nat, place: nat, above: bool, enabled: bool)
    requires Placed(target, place, above)
    ensures ShortFunction(target)
    ensures PatchOk(Setting(arch), Entry(arch, target, place, above, enabled), BUILT)
  {
    assert PROGRAM(NEIGHBOUR + 1) == 0xC3 && PROGRAM(NEIGHBOUR + 2) == 0xC3;
    hide Read;
  }

  lemma ExampleEntryOk(arch: Arch, target: nat, place: nat, above: bool, enabled: bool)
    requires Placed(target, place, above)
    ensures EntryOk(Setting(arch), Entry(arch, target, place, above, enabled), BUILT)
  {
    hide Layout, PatchOk, LengthOk, SmallDecode, SmallDecoder, Read, Write, Listed, DetourOk, ShortFunction;
    PatchFits(arch, target, place, above, enabled);
    CopiesLaidOut(arch, target, place);
    LengthsAgree(arch, target, place, above, enabled);
    EntryListed(arch, target, place, above, enabled);
  }

  lemma EntryListed(arch: Arch, target: nat, place: nat, above: bool, enabled: bool)
    requires Placed(target, place, above)
    ensures Listed(Entry(arch, target, place, above, enabled), COPIES)
    ensures DetourOk(arch, Entry(arch, target, place, above, enabled), BUILT)
  {
    hide Read, Write;
  }

  lemma SlotRead(arch: Arch, m: Mem, place: nat)
    requires Read(m, place, |SlotCode(arch, place)|) == SlotCode(arch, place)
    ensures Read(m, place, 1) == [0x90] && Read(m, place + 1, 1) == [0xC3]
    ensures arch == X64 ==> Read(m, place + 2, 14) == JmpCode(X64, place + 2, DETOUR)
  {
    hide Read, LE;
    ReadPart(m, place, |SlotCode(arch, place)|, 0, 1);
    ReadPart(m, place, |SlotCode(arch, place)|, 1, 2);
    assert SlotCode(arch, place)[0..1] == [0x90] && SlotCode(arch, place)[1..2] == [0xC3];
    if arch == X64 {
      ReadPart(m, place, 16, 2, 16);
      assert SlotCode(arch, place)[2..16] == JmpCode(X64, place + 2, DETOUR);
    }
  }

  /** A slot that holds the trampoline code serves the hook. */
  lemma SlotPlaced(arch: Arch, m: Mem, target: nat, place: nat, above: bool, enabled: bool)
    requires Read(m, place, |SlotCode(arch, place)|) == SlotCode(arch, place)
    ensures SlotOk(arch, m, Entry(arch, target, place, above, enabled), BUILT)
  {
    SlotRead(arch, m, place);
    hide Read, JmpCode, SlotCode;
  }

  // ---------- One enabled hook ----------

  function Hooked(arch: Arch): Mem {
    Write(Write(PROGRAM, PLACE, SlotCode(arch, PLACE)), FUNCTION, PatchBytes(First(arch, true)))
  }

  function Example(arch: Arch): HookState {
    HookState(true, true, INITIAL_HOOK_CAPACITY, [First(arch, true)], [BUILT], iset{PLACE}, Hooked(arch))
  }

  lemma SlotFilled(arch: Arch)
    ensures Read(Hooked(arch), PLACE, |SlotCode(arch, PLACE)|) == SlotCode(arch, PLACE)
  {
    hide Read, Write, PatchBytes, LE;
    var before := Write(PROGRAM, PLACE, SlotCode(arch, PLACE));
    ReadWritten(PROGRAM, PLACE, SlotCode(arch, PLACE));
    WindowSize(First(arch, true));
    ReadAgree(before, Hooked(arch), PLACE, |SlotCode(arch, PLACE)|);
  }

  lemma ExampleCode(arch: Arch)
    ensures CodeShows(Hooked(arch), PROGRAM, Setting(arch).code, [First(arch, true)])
  {
    var items := [First(arch, true)];
    WindowSize(First(arch, true));
    ReadWritten(Write(PROGRAM, PLACE, SlotCode(arch, PLACE)), FUNCTION, PatchBytes(First(arch, true)));
    forall x | Setting(arch).code(x) && !Patched(items, x)
      ensures Hooked(arch)(x) == PROGRAM(x)
    {
      EnabledPatched(items, 0, x);
    }
    hide PatchBytes, SlotCode, Read;
  }

  lemma EntryPlace(arch: Arch)
    ensures var e := First(arch, true);
            e.pTrampoline == PLACE && e.isEnabled && e.backup == Read(PROGRAM, PatchAddr(e), PatchLen(e))
  {
  }

  /** The invariant has a state with an enabled hook. */
  lemma HookedStateExists(arch: Arch)
    ensures DecoderOk(arch, Setting(arch).decode) && Inv(Setting(arch), Example(arch))
    ensures |Example(arch).items| == 1 && Example(arch).items[0].isEnabled
  {
    hide EntryOk, SlotOk, CodeShows, Hooked, DecoderOk, Read, Entry, SlotCode, SmallDecoder, Write;
    DecodersExist(arch);
    ExampleEntryOk(arch, FUNCTION, PLACE, false, true);
    SlotFilled(arch);
    SlotPlaced(arch, Hooked(arch), FUNCTION, PLACE, false, true);
    ExampleCode(arch);
    EntryPlace(arch);
    var s := Example(arch);
    assert s.items[0].pTrampoline == PLACE;
    assert SlotsOwned(s.items, s.live);
    assert AllBackedUp(Setting(arch).orig, s.items);
  }

  // ---------- A thread in the middle of a jump ----------

  /**
   MH_Uninitialize cannot make the window writable. A thread that stood behind the NOP in the trampoline
   resumes behind the NOP of the function, which is the second byte of the jump that is still there.
   */
  lemma StrandedThread(arch: Arch)
    ensures var s, sys := Example(arch), OneThread(true);
            var before, after := map[7 := Thread(PLACE + 1, 0)], map[7 := Thread(FUNCTION + 1, 0)];
            && UninitializeStep(s, ERROR_MEMORY_PROTECT, s)
            && AllTablesOk(s.items)
            && Handled(arch, s.items, 0, 1, ACTION_DISABLE, sys, true, before, after)
            && !Stands(s.items[0], after[7].ip)
  {
    hide Hooked, PatchBytes, Read, Handled;
    var s, sys := Example(arch), OneThread(true);
    assert AllTablesOk(s.items);
    StrandedIp(arch, sys);
    LeftSuspended(arch, s.items, 0, 1, ACTION_DISABLE, PLACE + 1, true);
    NothingSwitchedYet(s);
  }

  lemma StrandedIp(arch: Arch, sys: Threading)
    requires sys.canSet(7, 0)
    ensures var items := [First(arch, true)];
            AllTablesOk(items) &&
            StoredIp(arch, items, 0, 1, ACTION_DISABLE, sys, 7, PLACE + 1, PLACE + 1) == FUNCTION + 1
  {
    hide Read;
    var items := [First(arch, true)];
    assert Lookup([0, 1, 0, 0, 0, 0, 0, 0], 2, PLACE, PLACE + 1, 1) == 1;
    assert Redirect(arch, ACTION_DISABLE, items[0], PLACE + 1) == FUNCTION + 1;
    assert StoredIp(arch, items, 1, 1, ACTION_DISABLE, sys, 7, FUNCTION + 1, FUNCTION + 1) == FUNCTION + 1;
  }

  /** A bulk switch that stops at its first hook. */
  lemma NothingSwitchedYet(s: HookState)
    requires s.ready && s.items != [] && s.items[0].isEnabled
    ensures UninitializeStep(s, ERROR_MEMORY_PROTECT, s)
  {
    var k: nat := 0;
    assert SwitchedItems(s.items, All(false), k) == s.items;
    assert s == s.(items := SwitchedItems(s.items, All(false), k), mem := s.mem);
    assert BulkStep(s, All(false), ERROR_MEMORY_PROTECT, s);
  }

  // ---------- Two functions nine bytes apart ----------

  function OneSlot(arch: Arch): Mem {
    Write(PROGRAM, PLACE, SlotCode(arch, PLACE))
  }

  function TwoSlots(arch: Arch): Mem {
    Write(OneSlot(arch), OTHER_PLACE, SlotCode(arch, OTHER_PLACE))
  }

  function FirstPatched(arch: Arch): Mem {
    Write(TwoSlots(arch), FUNCTION, PatchBytes(First(arch, false)))
  }

  function BothPatched(arch: Arch): Mem {
    Write(FirstPatched(arch), NEIGHBOUR - JMP_REL, PatchBytes(Second(arch, false)))
  }

  function FirstRestored(arch: Arch): Mem {
    Write(BothPatched(arch), FUNCTION, First(arch, true).backup)
  }

  const FRESH: HookState := HookState(false, false, 0, [], [], iset{}, PROGRAM)
  const NO_HOOK: HookState := FRESH.(ready := true)

  function OneHook(arch: Arch): HookState {
    HookState(true, true, INITIAL_HOOK_CAPACITY, [] + [First(arch, false)], [] + [BUILT], iset{} + iset{PLACE},
      OneSlot(arch))
  }

  function TwoHooks(arch: Arch): HookState {
    var s := OneHook(arch);
    HookState(true, true, INITIAL_HOOK_CAPACITY, s.items + [Second(arch, false)], s.builds + [BUILT],
      s.live + iset{OTHER_PLACE}, TwoSlots(arch))
  }

  /** Which of the two hooks are enabled. */
  function Switches(arch: Arch, first: bool, second: bool, m: Mem): HookState {
    TwoHooks(arch).(items := [First(arch, first), Second(arch, second)], mem := m)
  }

  lemma SlotsKept(arch: Arch)
    ensures forall x :: Setting(arch).code(x) ==> OneSlot(arch)(x) == PROGRAM(x) && TwoSlots(arch)(x) == PROGRAM(x)
    ensures forall x :: PLACE <= x < PLACE + SlotSize(arch) ==> TwoSlots(arch)(x) == OneSlot(arch)(x)
    ensures Read(OneSlot(arch), PLACE, |SlotCode(arch, PLACE)|) == SlotCode(arch, PLACE)
    ensures Read(TwoSlots(arch), OTHER_PLACE, |SlotCode(arch, OTHER_PLACE)|) == SlotCode(arch, OTHER_PLACE)
  {
    ReadWritten(PROGRAM, PLACE, SlotCode(arch, PLACE));
    ReadWritten(OneSlot(arch), OTHER_PLACE, SlotCode(arch, OTHER_PLACE));
    assert |SlotCode(arch, PLACE)| <= 16 && |SlotCode(arch, OTHER_PLACE)| <= 16;
    hide Read, SlotCode;
  }

  lemma HookAdded(w: World, s: HookState, target: nat, detour: nat, e: HookEntry, b: Build, s': HookState)
    requires s.ready && w.executable(target) && w.executable(detour) && FindFrom(s.items, target, 0) == |s.items|
    requires NewEntry(w, s, target, detour, e, b) && HeapOnly(w, s, s'.mem) && SlotOk(w.arch, s'.mem, e, b)
    requires s' == HookState(true, true, Grown(s), s.items + [e], s.builds + [b], s.live + iset{e.pTrampoline}, s'.mem)
    ensures ApiStep(w, s, CreateHook(target, detour), OK, s')
  {
    hide NewEntry, HeapOnly, SlotOk, Grown, Unhookable;
  }

  lemma FirstCreated(arch: Arch)
    ensures ApiStep(Setting(arch), NO_HOOK, CreateHook(FUNCTION, DETOUR), OK, OneHook(arch))
  {
    hide ApiStep, EntryOk, SlotOk, Read, Write, OneSlot, TwoSlots, SmallDecoder, SlotCode;
    var w, e := Setting(arch), First(arch, false);
    ExampleEntryOk(arch, FUNCTION, PLACE, false, false);
    SlotsKept(arch);
    SlotPlaced(arch, OneSlot(arch), FUNCTION, PLACE, false, false);
    assert NewEntry(w, NO_HOOK, FUNCTION, DETOUR, e, BUILT);
    HookAdded(w, NO_HOOK, FUNCTION, DETOUR, e, BUILT, OneHook(arch));
  }

  lemma SecondCreated(arch: Arch)
    ensures ApiStep(Setting(arch), OneHook(arch), CreateHook(NEIGHBOUR, DETOUR), OK, TwoHooks(arch))
  {
    hide ApiStep, EntryOk, SlotOk, Read, Write, OneSlot, TwoSlots, SmallDecoder, SlotCode;
    var w, s, e := Setting(arch), OneHook(arch), Second(arch, false);
    ExampleEntryOk(arch, NEIGHBOUR, OTHER_PLACE, true, false);
    SlotsKept(arch);
    SlotPlaced(arch, TwoSlots(arch), NEIGHBOUR, OTHER_PLACE, true, false);
    SecondBackup(arch);
    assert FindFrom(s.items, NEIGHBOUR, 0) == 1;
    assert NewEntry(w, s, NEIGHBOUR, DETOUR, e, BUILT);
    HookAdded(w, s, NEIGHBOUR, DETOUR, e, BUILT, TwoHooks(arch));
  }

  lemma SecondBackup(arch: Arch)
    ensures var e := Second(arch, false);
            e.pTrampoline == OTHER_PLACE && e.pTarget == NEIGHBOUR &&
            e.backup == Read(OneSlot(arch), PatchAddr(e), PatchLen(e))
  {
    SlotsKept(arch);
    hide Read, Write, OneSlot;
    ReadAgree(PROGRAM, OneSlot(arch), NEIGHBOUR - JMP_REL, JMP_REL + JMP_REL_SHORT);
  }

  lemma HooksSwitched(arch: Arch)
    ensures var w := Setting(arch);
            && ApiStep(w, TwoHooks(arch), EnableHook(FUNCTION, true), OK,
               Switches(arch, true, false, FirstPatched(arch)))
            && ApiStep(w, Switches(arch, true, false, FirstPatched(arch)), EnableHook(NEIGHBOUR, true), OK,
                       Switches(arch, true, true, BothPatched(arch)))
            && ApiStep(w, Switches(arch, true, true, BothPatched(arch)), EnableHook(FUNCTION, false), OK,
                       Switches(arch, false, true, FirstRestored(arch)))
  {
    hide Read, Write, LE, OneSlot, TwoSlots, SmallDecoder;
    assert TwoHooks(arch) == Switches(arch, false, false, TwoSlots(arch));
    SwitchFirst(arch, true, false, TwoSlots(arch));
    SwitchSecond(arch, FirstPatched(arch));
    SwitchFirst(arch, false, true, BothPatched(arch));
  }

  lemma SwitchFirst(arch: Arch, enable: bool, second: bool, m: Mem)
    ensures var e := First(arch, !enable);
            var m' := Write(m, FUNCTION, if enable then PatchBytes(e) else e.backup);
            ApiStep(Setting(arch), Switches(arch, !enable, second, m), EnableHook(FUNCTION, enable), OK,
                    Switches(arch, enable, second, m'))
  {
    var s := Switches(arch, !enable, second, m);
    hide Read, Write, PatchBytes, TwoSlots, SmallDecoder;
    assert FindFrom(s.items, FUNCTION, 0) == 0;
    assert s.items[0 := Switched(s.items[0], enable)] == [First(arch, enable), Second(arch, second)];
  }

  lemma SwitchSecond(arch: Arch, m: Mem)
    ensures ApiStep(Setting(arch), Switches(arch, true, false, m), EnableHook(NEIGHBOUR, true), OK,
                    Switches(arch, true, true, Write(m, NEIGHBOUR - JMP_REL, PatchBytes(Second(arch, false)))))
  {
    var s := Switches(arch, true, false, m);
    hide Read, Write, PatchBytes, TwoSlots, SmallDecoder;
    assert FindFrom(s.items, NEIGHBOUR, 0) == 1;
    assert s.items[1 := Switched(s.items[1], true)] == [First(arch, true), Second(arch, true)];
  }

  /**
   Both functions are hooked and both hooks enabled, every call with success; then the first hook is disabled.
   The second hook counts as enabled, and its patch no longer begins with a jump.
   */
  lemma NeighboursCollide(arch: Arch)
    ensures var w, s := Setting(arch), Switches(arch, false, true, FirstRestored(arch));
            && DecoderOk(arch, w.decode) && Initial(w, FRESH) && NEIGHBOUR == FUNCTION + 2 * JMP_REL - 1
            && ApiStep(w, FRESH, Initialize, OK, NO_HOOK)
            && ApiStep(w, NO_HOOK, CreateHook(FUNCTION, DETOUR), OK, OneHook(arch))
            && ApiStep(w, OneHook(arch), CreateHook(NEIGHBOUR, DETOUR), OK, TwoHooks(arch))
            && ApiStep(w, TwoHooks(arch), EnableHook(FUNCTION, true), OK,
               Switches(arch, true, false, FirstPatched(arch)))
            && ApiStep(w, Switches(arch, true, false, FirstPatched(arch)), EnableHook(NEIGHBOUR, true), OK,
                       Switches(arch, true, true, BothPatched(arch)))
            && ApiStep(w, Switches(arch, true, true, BothPatched(arch)), EnableHook(FUNCTION, false), OK, s)
            && s.items[1].isEnabled
            && s.mem(PatchAddr(s.items[1])) == 0x90 && PatchBytes(s.items[1])[0] == 0xE9
  {
    hide Read, LE, OneSlot, TwoSlots, FirstPatched, BothPatched, ApiStep, DecoderOk, SmallDecoder;
    DecodersExist(arch);
    LibraryReady(arch);
    FirstCreated(arch);
    SecondCreated(arch);
    HooksSwitched(arch);
    JumpLost(arch);
  }

  lemma LibraryReady(arch: Arch)
    ensures ApiStep(Setting(arch), FRESH, Initialize, OK, NO_HOOK)
  {
  }

  lemma JumpLost(arch: Arch)
    ensures FirstRestored(arch)(NEIGHBOUR - JMP_REL) == 0x90
  {
    assert First(arch, true).backup[4] == PROGRAM(FUNCTION + 4) == 0x90;
    hide BothPatched, PatchBytes;
  }
}
