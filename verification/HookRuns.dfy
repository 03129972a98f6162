/** hook.c: every API call keeps the invariant, and so does every run of calls. */
module HookRuns {
  import opened Bytes
  import opened Cpu
  import opened TrampolineSpec
  import opened TrampolineBuilder
  import opened TrampolineCode
  import opened SlotHeap
  import opened Buffer
  import opened HookSpec

  // ---------- Windows ----------

  lemma WindowSize(e: HookEntry)
    ensures |PatchBytes(e)| == PatchLen(e)
  {
  }

  lemma WindowsDisjoint(e: HookEntry, f: HookEntry, x: int)
    requires Separate(e, f) && InWindow(e, x)
    ensures !InWindow(f, x)
  {
  }

  lemma WindowIsCode(w: World, e: HookEntry, b: Build, x: int)
    requires EntryOk(w, e, b) && InWindow(e, x)
    ensures w.code(x)
  {
    hide Layout, Listed, PatchOk, LengthOk, DetourOk, Apart;
  }

  lemma BackupSize(orig: Mem, items: seq<HookEntry>, i: nat)
    requires AllBackedUp(orig, items) && i < |items|
    ensures |items[i].backup| == PatchLen(items[i])
    ensures items[i].backup == Read(orig, PatchAddr(items[i]), PatchLen(items[i]))
  {
  }

  /** Two entries of the table, in either order. */
  lemma PairSeparate(items: seq<HookEntry>, i: nat, j: nat)
    requires AllSeparate(items) && i < |items| && j < |items| && i != j
    ensures Separate(items[i], items[j])
  {
    hide Separate;
    if j < i {
      assert Separate(items[j], items[i]);
      SeparateSymmetric(items[j], items[i]);
    }
  }

  lemma SeparateSymmetric(e: HookEntry, f: HookEntry)
    requires Separate(e, f)
    ensures Separate(f, e)
  {
  }

  /** Changing the flags of an entry moves neither its windows nor its slot. */
  predicate SamePlace(e: HookEntry, f: HookEntry) {
    f == e.(isEnabled := f.isEnabled, queueEnable := f.queueEnable)
  }

  predicate SamePlaces(items: seq<HookEntry>, items': seq<HookEntry>) {
    |items'| == |items| && forall i :: 0 <= i < |items| ==> SamePlace(items[i], items'[i])
  }

  lemma PlacedEntry(w: World, e: HookEntry, f: HookEntry, b: Build)
    requires SamePlace(e, f) && EntryOk(w, e, b)
    ensures EntryOk(w, f, b)
  {
    hide Layout, Apart, TargetOk, Patchable, Room, CodeLength;
  }

  lemma PlacedSlot(arch: Arch, m: Mem, e: HookEntry, f: HookEntry, b: Build)
    requires SamePlace(e, f) && SlotOk(arch, m, e, b)
    ensures SlotOk(arch, m, f, b)
  {
    hide SlotHolds;
  }

  /** What of the invariant does not look at the flags. */
  ghost predicate PlacesOk(w: World, items: seq<HookEntry>, builds: seq<Build>, live: iset<nat>)
    requires |builds| == |items|
  {
    AllSeparate(items) && SlotsOwned(items, live) && AllEntriesOk(w, items, builds) && AllBackedUp(w.orig, items)
  }

  lemma FlagsKeepPlaces(w: World, items: seq<HookEntry>, items': seq<HookEntry>, builds: seq<Build>, live: iset<nat>)
    requires |builds| == |items| && PlacesOk(w, items, builds, live) && SamePlaces(items, items')
    ensures PlacesOk(w, items', builds, live)
  {
    hide EntryOk;
    forall i | 0 <= i < |items'|
      ensures EntryOk(w, items'[i], builds[i])
    {
      PlacedEntry(w, items[i], items'[i], builds[i]);
    }
    forall s: nat
      ensures s in live <==> exists i :: 0 <= i < |items'| && items'[i].pTrampoline == s
    {
      if i :| 0 <= i < |items'| && items'[i].pTrampoline == s {
        assert items[i].pTrampoline == s;
      }
      if s in live {
        var i :| 0 <= i < |items| && items[i].pTrampoline == s;
        assert items'[i].pTrampoline == s;
      }
    }
  }

  lemma FlagsKeepSlots(arch: Arch, m: Mem, items: seq<HookEntry>, items': seq<HookEntry>, builds: seq<Build>)
    requires |builds| == |items| && AllSlotsOk(arch, m, items, builds) && SamePlaces(items, items')
    ensures AllSlotsOk(arch, m, items', builds)
  {
    hide SlotOk;
    forall i | 0 <= i < |items'|
      ensures SlotOk(arch, m, items'[i], builds[i])
    {
      PlacedSlot(arch, m, items[i], items'[i], builds[i]);
    }
  }

  // ---------- Slots ----------

  lemma SlotFrame(w: World, m: Mem, m': Mem, e: HookEntry, b: Build)
    requires EntryOk(w, e, b) && SlotOk(w.arch, m, e, b)
    requires forall x :: e.pTrampoline <= x < e.pTrampoline + SlotSize(w.arch) ==> m'(x) == m(x)
    requires DecoderSane(w.arch, w.decode)
    ensures SlotOk(w.arch, m', e, b)
  {
    hide *;
    SlotContents(w, e, b);
    SlotOkParts(w.arch, m, e, b);
    CopiesFrame(m, m', e.pTrampoline, b.cs, SlotSize(w.arch));
    if w.arch == X64 {
      ReadAgree(m, m', e.pDetour, JmpSize(w.arch));
    }
    SlotOkIf(w.arch, m', e, b);
  }

  lemma SlotOkParts(arch: Arch, m: Mem, e: HookEntry, b: Build)
    requires SlotOk(arch, m, e, b)
    ensures SlotHolds(m, e.pTrampoline, b.cs)
    ensures arch == X64 ==> Read(m, e.pDetour, JmpSize(arch)) == JmpCode(arch, e.pDetour, b.detour)
  {
    hide SlotHolds, Read, JmpCode;
  }

  lemma SlotOkIf(arch: Arch, m: Mem, e: HookEntry, b: Build)
    requires SlotHolds(m, e.pTrampoline, b.cs)
    requires arch == X64 ==> Read(m, e.pDetour, JmpSize(arch)) == JmpCode(arch, e.pDetour, b.detour)
    ensures SlotOk(arch, m, e, b)
  {
    hide SlotHolds, Read, JmpCode;
  }

  /** Memory that agrees on the slot holds the same copies. */
  lemma CopiesFrame(m: Mem, m': Mem, slot: nat, cs: seq<Copy>, size: nat)
    requires SlotHolds(m, slot, cs) && forall i :: 0 <= i < |cs| ==> cs[i].newPos + |cs[i].code| <= size
    requires forall x :: slot <= x < slot + size ==> m'(x) == m(x)
    ensures SlotHolds(m', slot, cs)
  {
    forall i | 0 <= i < |cs|
      ensures Read(m', slot + cs[i].newPos, |cs[i].code|) == cs[i].code
    {
      ReadAgree(m, m', slot + cs[i].newPos, |cs[i].code|);
    }
  }

  /** The copies and the relay lie in the slot. */
  lemma SlotContents(w: World, e: HookEntry, b: Build)
    requires DecoderSane(w.arch, w.decode) && EntryOk(w, e, b)
    ensures forall i :: 0 <= i < |b.cs| ==> b.cs[i].newPos + |b.cs[i].code| <= SlotSize(w.arch)
    ensures w.arch == X64 ==> e.pTrampoline <= e.pDetour && e.pDetour + JmpSize(X64) <= e.pTrampoline + SlotSize(X64)
  {
    BoundariesFit(w.arch, w.decode, b.seen, e.pTarget, e.pTrampoline, b.cs);
    hide CopyOk, Ends, BranchesKeepDistance, Chained, Listed, Apart, TargetOk, DecoderSane, FitsInt32, PatchOk,
         LengthOk, OnCell;
  }

  /** Writing code only leaves all slots as they are. */
  lemma CodeWritesKeepSlots(w: World, m: Mem, m': Mem, items: seq<HookEntry>, builds: seq<Build>)
    requires DecoderSane(w.arch, w.decode)
    requires |builds| == |items| && AllEntriesOk(w, items, builds) && AllSlotsOk(w.arch, m, items, builds)
    requires forall x :: !w.code(x) ==> m'(x) == m(x)
    ensures AllSlotsOk(w.arch, m', items, builds)
  {
    hide SlotOk, Layout, Listed, DetourOk, TargetOk, Apart, DecoderSane;
    forall i | 0 <= i < |items|
      ensures SlotOk(w.arch, m', items[i], builds[i])
    {
      assert EntryOk(w, items[i], builds[i]);
      SlotFrame(w, m, m', items[i], builds[i]);
    }
  }

  // ---------- Switching one hook ----------

  lemma PatchedElsewhere(items: seq<HookEntry>, pos: nat, e': HookEntry, x: int)
    requires pos < |items| && !InWindow(items[pos], x) && !InWindow(e', x)
    ensures Patched(items[pos := e'], x) <==> Patched(items, x)
  {
    var items' := items[pos := e'];
    if Patched(items, x) {
      var i :| 0 <= i < |items| && items[i].isEnabled && InWindow(items[i], x);
      assert items'[i] == items[i];
    }
    if Patched(items', x) {
      var i :| 0 <= i < |items'| && items'[i].isEnabled && InWindow(items'[i], x);
      assert items'[i] == items[i];
    }
  }

  /** Writing the patch or the backup of hook pos gives the code that the switched table calls for. */
  lemma SwitchKeepsCode(m: Mem, m': Mem, orig: Mem, code: int -> bool, items: seq<HookEntry>, pos: nat, enable: bool)
    requires AllSeparate(items) && AllBackedUp(orig, items) && CodeShows(m, orig, code, items)
    requires pos < |items| && SameMem(m', Write(m, PatchAddr(items[pos]), WindowBytes(items[pos], enable)))
    ensures CodeShows(m', orig, code, items[pos := Switched(items[pos], enable)])
    ensures forall x :: !InWindow(items[pos], x) ==> m'(x) == m(x)
  {
    hide Separate, PatchBytes, AllSeparate;
    var e := items[pos];
    var items' := items[pos := Switched(e, enable)];
    WindowSize(e);
    BackupSize(orig, items, pos);
    ReadWritten(m, PatchAddr(e), WindowBytes(e, enable));
    assert PatchBytes(Switched(e, enable)) == PatchBytes(e) by {
      SamePatch(e, enable);
    }
    forall i | 0 <= i < |items'| && items'[i].isEnabled
      ensures Read(m', PatchAddr(items'[i]), PatchLen(items'[i])) == PatchBytes(items'[i])
    {
      if i != pos {
        OtherWindowKept(m, m', items, pos, i);
      }
    }
    forall x | code(x) && !Patched(items', x)
      ensures m'(x) == orig(x)
    {
      EnabledPatched(items', pos, x);
      if !InWindow(e, x) {
        PatchedElsewhere(items, pos, items'[pos], x);
      }
    }
  }

  lemma EnabledPatched(items: seq<HookEntry>, pos: nat, x: int)
    requires pos < |items|
    ensures items[pos].isEnabled && InWindow(items[pos], x) ==> Patched(items, x)
  {
  }

  lemma SamePatch(e: HookEntry, enable: bool)
    ensures PatchBytes(Switched(e, enable)) == PatchBytes(e)
  {
  }

  lemma OtherWindowKept(m: Mem, m': Mem, items: seq<HookEntry>, pos: nat, i: nat)
    requires AllSeparate(items) && pos < |items| && i < |items| && i != pos
    requires forall x :: !InWindow(items[pos], x) ==> m'(x) == m(x)
    ensures Read(m', PatchAddr(items[i]), PatchLen(items[i])) == Read(m, PatchAddr(items[i]), PatchLen(items[i]))
  {
    PairSeparate(items, i, pos);
    hide AllSeparate, Separate;
    forall x | InWindow(items[i], x)
      ensures m'(x) == m(x)
    {
      WindowsDisjoint(items[i], items[pos], x);
    }
    ReadAgree(m, m', PatchAddr(items[i]), PatchLen(items[i]));
  }

  /** Switching one hook keeps the invariant. */
  lemma SwitchKeepsInv(w: World, s: HookState, pos: nat, enable: bool, m': Mem)
    requires DecoderSane(w.arch, w.decode) && Inv(w, s) && pos < |s.items|
    requires SameMem(m', Write(s.mem, PatchAddr(s.items[pos]), WindowBytes(s.items[pos], enable)))
    ensures Inv(w, s.(items := s.items[pos := Switched(s.items[pos], enable)], mem := m'))
    ensures forall x :: !w.code(x) ==> m'(x) == s.mem(x)
  {
    hide EntryOk, SlotOk, CodeShows, PatchBytes, DecoderSane, AllSlotsOk, SameMem, Separate;
    var items' := s.items[pos := Switched(s.items[pos], enable)];
    assert SamePlaces(s.items, items');
    SwitchKeepsCode(s.mem, m', w.orig, w.code, s.items, pos, enable);
    forall x | !w.code(x)
      ensures m'(x) == s.mem(x)
    {
      OutsideCode(w, s.items[pos], s.builds[pos], x);
    }
    CodeWritesKeepSlots(w, s.mem, m', s.items, s.builds);
    FlagsKeepPlaces(w, s.items, items', s.builds, s.live);
    FlagsKeepSlots(w.arch, m', s.items, items', s.builds);
  }

  lemma OutsideCode(w: World, e: HookEntry, b: Build, x: int)
    requires EntryOk(w, e, b) && !w.code(x)
    ensures !InWindow(e, x)
  {
    hide Layout, Listed, PatchOk, LengthOk, DetourOk, Apart;
  }

  // ---------- Switching many hooks ----------

  lemma SwitchedNext(items: seq<HookEntry>, g: Goal, k: nat)
    requires k < |items|
    ensures SwitchedItems(items, g, k)[k] == items[k]
    ensures SwitchedItems(items, g, k + 1) ==
            if NeedsSwitch(g, items[k]) then SwitchedItems(items, g, k)[k := Switched(items[k], Wanted(g, items[k]))]
            else SwitchedItems(items, g, k)
  {
  }

  lemma {:induction false} BulkKeepsInv(w: World, s: HookState, g: Goal, k: nat)
    requires DecoderSane(w.arch, w.decode) && Inv(w, s) && k <= |s.items|
    ensures Inv(w, s.(items := SwitchedItems(s.items, g, k), mem := SwitchedMem(s.mem, s.items, g, k)))
    ensures forall x :: !w.code(x) ==> SwitchedMem(s.mem, s.items, g, k)(x) == s.mem(x)
  {
    hide Inv, Write, NeedsSwitch, DecoderSane;
    if k == 0 {
      assert SwitchedItems(s.items, g, 0) == s.items;
    } else {
      BulkKeepsInv(w, s, g, k - 1);
      SwitchedNext(s.items, g, k - 1);
      var before := s.(items := SwitchedItems(s.items, g, k - 1), mem := SwitchedMem(s.mem, s.items, g, k - 1));
      var e := s.items[k - 1];
      if NeedsSwitch(g, e) {
        var m' := Write(before.mem, PatchAddr(e), WindowBytes(e, Wanted(g, e)));
        SwitchKeepsInv(w, before, k - 1, Wanted(g, e), m');
      }
    }
  }

  /** The invariant only looks at the bytes. */
  lemma SameMemInv(w: World, s: HookState, m': Mem)
    requires DecoderSane(w.arch, w.decode) && Inv(w, s) && SameMem(m', s.mem)
    ensures Inv(w, s.(mem := m'))
  {
    hide EntryOk, SlotOk, DecoderSane, PatchBytes, AllSlotsOk;
    CodeWritesKeepSlots(w, s.mem, m', s.items, s.builds);
    forall i | 0 <= i < |s.items|
      ensures Read(m', PatchAddr(s.items[i]), PatchLen(s.items[i])) ==
              Read(s.mem, PatchAddr(s.items[i]), PatchLen(s.items[i]))
    {
      ReadAgree(s.mem, m', PatchAddr(s.items[i]), PatchLen(s.items[i]));
    }
  }

  lemma BulkStepKeepsInv(w: World, s: HookState, g: Goal, status: Status, s': HookState)
    requires DecoderSane(w.arch, w.decode) && Inv(w, s) && BulkStep(s, g, status, s')
    ensures Inv(w, s')
  {
    hide Inv, SwitchedMem, SwitchedItems, SameMem, NeedsSwitch, DecoderSane;
    var k: nat :|
      && k <= |s.items|
      && (if k == |s.items| then status == OK else status == ERROR_MEMORY_PROTECT && NeedsSwitch(g, s.items[k]))
      && s' == s.(items := SwitchedItems(s.items, g, k), mem := s'.mem)
      && SameMem(s'.mem, SwitchedMem(s.mem, s.items, g, k));
    BulkKeepsInv(w, s, g, k);
    SameMemInv(w, s.(items := SwitchedItems(s.items, g, k), mem := SwitchedMem(s.mem, s.items, g, k)), s'.mem);
  }

  // ---------- Creating a hook ----------

  /** The bytes the patch of a new hook will cover are the original ones: no enabled hook covers them. */
  lemma NewWindowOriginal(w: World, s: HookState, e: HookEntry, b: Build)
    requires Inv(w, s) && EntryOk(w, e, b)
    requires forall i :: 0 <= i < |s.items| ==> Separate(s.items[i], e)
    ensures Read(s.mem, PatchAddr(e), PatchLen(e)) == Read(w.orig, PatchAddr(e), PatchLen(e))
  {
    hide SlotOk, AllSlotsOk, AllEntriesOk, EntryOk, Separate, TableOk, AllSeparate, SlotsOwned, AllBackedUp, PatchBytes;
    forall x | InWindow(e, x)
      ensures s.mem(x) == w.orig(x)
    {
      WindowIsCode(w, e, b, x);
      if i :| 0 <= i < |s.items| && s.items[i].isEnabled && InWindow(s.items[i], x) {
        WindowsDisjoint(s.items[i], e, x);
      }
    }
    ReadAgree(s.mem, w.orig, PatchAddr(e), PatchLen(e));
  }

  /** Memory that changed only in the allocator's own bytes shows the same code. */
  lemma HeapOnlyKeepsCode(w: World, s: HookState, m': Mem)
    requires Inv(w, s) && HeapOnly(w, s, m')
    ensures CodeShows(m', w.orig, w.code, s.items)
  {
    hide SlotOk, AllSlotsOk, EntryOk, Separate, AllSeparate, SlotsOwned, AllBackedUp, PatchBytes;
    forall i | 0 <= i < |s.items|
      ensures Read(m', PatchAddr(s.items[i]), PatchLen(s.items[i])) ==
              Read(s.mem, PatchAddr(s.items[i]), PatchLen(s.items[i]))
    {
      forall x | InWindow(s.items[i], x)
        ensures m'(x) == s.mem(x)
      {
        assert EntryOk(w, s.items[i], s.builds[i]);
        WindowIsCode(w, s.items[i], s.builds[i], x);
      }
      ReadAgree(s.mem, m', PatchAddr(s.items[i]), PatchLen(s.items[i]));
    }
  }

  lemma HeapOnlyKeepsSlots(w: World, s: HookState, m': Mem)
    requires DecoderSane(w.arch, w.decode) && Inv(w, s) && HeapOnly(w, s, m')
    ensures AllSlotsOk(w.arch, m', s.items, s.builds)
  {
    hide SlotOk, EntryOk, Separate, AllSeparate, AllBackedUp, PatchBytes, CodeShows, DecoderSane;
    forall i | 0 <= i < |s.items|
      ensures SlotOk(w.arch, m', s.items[i], s.builds[i])
    {
      assert EntryOk(w, s.items[i], s.builds[i]) && s.items[i].pTrampoline in s.live;
      SlotFrame(w, s.mem, m', s.items[i], s.builds[i]);
    }
  }

  lemma GrownHolds(s: HookState)
    requires TableOk(s)
    ensures IsCapacity(Grown(s)) && |s.items| + 1 <= Grown(s)
  {
  }

  /** Adding a new, disabled hook whose slot was not in use. */
  lemma CreateKeepsInv(w: World, s: HookState, target: nat, detour: nat, e: HookEntry, b: Build, m': Mem)
    requires DecoderSane(w.arch, w.decode) && Inv(w, s) && s.ready
    requires NewEntry(w, s, target, detour, e, b) && HeapOnly(w, s, m') && SlotOk(w.arch, m', e, b)
    requires forall i :: 0 <= i < |s.items| ==> Separate(s.items[i], e)
    ensures Inv(w, HookState(true, true, Grown(s), s.items + [e], s.builds + [b], s.live + iset{e.pTrampoline}, m'))
  {
    hide Separate, EntryOk, SlotOk, HeapOnly, DecoderSane, PatchBytes, IsCapacity, Grown, SlotsOwned, CodeShows,
         AllEntriesOk, AllSlotsOk, AllBackedUp, AllSeparate, Read;
    NewWindowOriginal(w, s, e, b);
    HeapOnlyKeepsCode(w, s, m');
    HeapOnlyKeepsSlots(w, s, m');
    GrownHolds(s);
    OwnedMore(s.items, s.live, e);
    CodeShowsMore(m', w.orig, w.code, s.items, e);
    AllMore(w, m', s.items, s.builds, e, b);
  }

  /** What holds of all entries and of a new one holds of the longer table. */
  lemma AllMore(w: World, m: Mem, items: seq<HookEntry>, builds: seq<Build>, e: HookEntry, b: Build)
    requires |builds| == |items| && EntryOk(w, e, b) && SlotOk(w.arch, m, e, b)
    requires e.backup == Read(w.orig, PatchAddr(e), PatchLen(e))
    requires AllEntriesOk(w, items, builds) && AllSlotsOk(w.arch, m, items, builds) && AllBackedUp(w.orig, items) &&
             AllSeparate(items)
    requires forall i :: 0 <= i < |items| ==> Separate(items[i], e)
    ensures AllEntriesOk(w, items + [e], builds + [b]) && AllSlotsOk(w.arch, m, items + [e], builds + [b])
    ensures AllBackedUp(w.orig, items + [e]) && AllSeparate(items + [e])
  {
    hide Separate, EntryOk, SlotOk, Read;
    var items', builds' := items + [e], builds + [b];
    assert forall i :: 0 <= i < |items'| ==> items'[i] == (if i < |items| then items[i] else e);
    assert forall i :: 0 <= i < |builds'| ==> builds'[i] == (if i < |builds| then builds[i] else b);
  }

  lemma CodeShowsMore(m: Mem, orig: Mem, code: int -> bool, items: seq<HookEntry>, e: HookEntry)
    requires CodeShows(m, orig, code, items) && !e.isEnabled
    ensures CodeShows(m, orig, code, items + [e])
  {
    hide PatchBytes;
    var items' := items + [e];
    assert forall i :: 0 <= i < |items'| ==> items'[i] == (if i < |items| then items[i] else e);
    forall x | code(x) && !Patched(items', x)
      ensures m(x) == orig(x)
    {
      PatchedMore(items, e, x);
    }
  }

  lemma OwnedMore(items: seq<HookEntry>, live: iset<nat>, e: HookEntry)
    requires SlotsOwned(items, live)
    ensures SlotsOwned(items + [e], live + iset{e.pTrampoline})
  {
    var items' := items + [e];
    forall s: nat
      ensures s in live + iset{e.pTrampoline} <==> exists i :: 0 <= i < |items'| && items'[i].pTrampoline == s
    {
      if i :| 0 <= i < |items'| && items'[i].pTrampoline == s {
        assert i < |items| ==> items[i].pTrampoline == s;
      }
      if s in live {
        var i :| 0 <= i < |items| && items[i].pTrampoline == s;
        assert items'[i].pTrampoline == s;
      }
      assert items'[|items|] == e;
    }
  }

  lemma PatchedMore(items: seq<HookEntry>, e: HookEntry, x: int)
    ensures Patched(items, x) ==> Patched(items + [e], x)
  {
    if i :| 0 <= i < |items| && items[i].isEnabled && InWindow(items[i], x) {
      assert (items + [e])[i] == items[i];
    }
  }

  // ---------- Removing a hook ----------

  /** Where position i of the shortened table comes from, and where position k of the table goes. */
  function From<T>(items: seq<T>, pos: nat, i: nat): int {
    if i == pos then |items| - 1 else i
  }

  function To<T>(items: seq<T>, pos: nat, k: nat): nat {
    if k == |items| - 1 then pos else k
  }

  lemma DeletedAt<T>(items: seq<T>, pos: nat)
    requires pos < |items|
    ensures |Deleted(items, pos)| == |items| - 1
    ensures forall i :: 0 <= i < |items| - 1 ==>
              && 0 <= From(items, pos, i) < |items| && From(items, pos, i) != pos
              && Deleted(items, pos)[i] == items[From(items, pos, i)]
    ensures forall k :: 0 <= k < |items| && k != pos ==>
            To(items, pos, k) < |items| - 1 && Deleted(items, pos)[To(items, pos, k)] == items[k]
  {
  }

  lemma DeletedPatched(items: seq<HookEntry>, pos: nat, x: int)
    requires pos < |items| && !items[pos].isEnabled
    ensures Patched(Deleted(items, pos), x) <==> Patched(items, x)
  {
    DeletedAt(items, pos);
    hide Deleted;
    var items' := Deleted(items, pos);
    if Patched(items, x) {
      var k :| 0 <= k < |items| && items[k].isEnabled && InWindow(items[k], x);
      assert items'[To(items, pos, k)] == items[k];
    }
    if Patched(items', x) {
      var i :| 0 <= i < |items'| && items'[i].isEnabled && InWindow(items'[i], x);
      assert items'[i] == items[From(items, pos, i)];
    }
  }

  /** s is the trampoline of some entry. */
  ghost predicate Owned(items: seq<HookEntry>, s: nat) {
    exists i :: 0 <= i < |items| && items[i].pTrampoline == s
  }

  lemma OwnedAfter(items: seq<HookEntry>, pos: nat, s: nat)
    requires pos < |items| && AllSeparate(items)
    ensures Owned(Deleted(items, pos), s) <==> Owned(items, s) && s != items[pos].pTrampoline
  {
    DeletedAt(items, pos);
    hide Deleted, AllSeparate;
    var items' := Deleted(items, pos);
    if Owned(items', s) {
      var i :| 0 <= i < |items'| && items'[i].pTrampoline == s;
      assert items[From(items, pos, i)].pTrampoline == s;
      PairSeparate(items, From(items, pos, i), pos);
    }
    if Owned(items, s) && s != items[pos].pTrampoline {
      var k :| 0 <= k < |items| && items[k].pTrampoline == s;
      assert items'[To(items, pos, k)].pTrampoline == s;
    }
  }

  lemma DeletedOwned(items: seq<HookEntry>, pos: nat, live: iset<nat>)
    requires pos < |items| && SlotsOwned(items, live) && AllSeparate(items)
    ensures SlotsOwned(Deleted(items, pos), live - iset{items[pos].pTrampoline})
  {
    hide Deleted, AllSeparate;
    forall s: nat
      ensures s in live - iset{items[pos].pTrampoline} <==> Owned(Deleted(items, pos), s)
    {
      OwnedAfter(items, pos, s);
      assert s in live <==> Owned(items, s);
    }
  }

  lemma DeletedSeparate(items: seq<HookEntry>, pos: nat)
    requires pos < |items| && AllSeparate(items)
    ensures AllSeparate(Deleted(items, pos))
  {
    DeletedAt(items, pos);
    hide Deleted, Separate, AllSeparate;
    var items' := Deleted(items, pos);
    forall i, j | 0 <= i < j < |items'|
      ensures Separate(items'[i], items'[j])
    {
      PairSeparate(items, From(items, pos, i), From(items, pos, j));
    }
    assert AllSeparate(items') by {
      AllSeparateIf(items');
    }
  }

  lemma AllSeparateIf(items: seq<HookEntry>)
    requires forall i, j :: 0 <= i < j < |items| ==> Separate(items[i], items[j])
    ensures AllSeparate(items)
  {
  }

  lemma DeletedEntries(w: World, items: seq<HookEntry>, builds: seq<Build>, pos: nat)
    requires pos < |items| == |builds|
    requires AllEntriesOk(w, items, builds) && AllBackedUp(w.orig, items)
    ensures |Deleted(builds, pos)| == |Deleted(items, pos)|
    ensures AllEntriesOk(w, Deleted(items, pos), Deleted(builds, pos)) && AllBackedUp(w.orig, Deleted(items, pos))
  {
    DeletedAt(items, pos);
    DeletedAt(builds, pos);
    hide Deleted, EntryOk;
  }

  lemma DeletedSlots(arch: Arch, m: Mem, items: seq<HookEntry>, builds: seq<Build>, pos: nat)
    requires pos < |items| == |builds| && AllSlotsOk(arch, m, items, builds)
    ensures |Deleted(builds, pos)| == |Deleted(items, pos)|
    ensures AllSlotsOk(arch, m, Deleted(items, pos), Deleted(builds, pos))
  {
    DeletedAt(items, pos);
    DeletedAt(builds, pos);
    hide Deleted, SlotOk;
  }

  lemma DeletedCode(m: Mem, orig: Mem, code: int -> bool, items: seq<HookEntry>, pos: nat)
    requires pos < |items| && !items[pos].isEnabled && CodeShows(m, orig, code, items)
    ensures CodeShows(m, orig, code, Deleted(items, pos))
  {
    DeletedAt(items, pos);
    hide Deleted, PatchBytes;
    var items' := Deleted(items, pos);
    forall i | 0 <= i < |items'| && items'[i].isEnabled
      ensures Read(m, PatchAddr(items'[i]), PatchLen(items'[i])) == PatchBytes(items'[i])
    {
      assert items'[i] == items[From(items, pos, i)];
    }
    forall x | code(x) && !Patched(items', x)
      ensures m(x) == orig(x)
    {
      DeletedPatched(items, pos, x);
    }
  }

  /** Dropping a disabled hook from the table. */
  lemma DropKeepsInv(w: World, s: HookState, pos: nat)
    requires DecoderSane(w.arch, w.decode) && Inv(w, s) && pos < |s.items| && !s.items[pos].isEnabled
    ensures Inv(w, s.(items := Deleted(s.items, pos), builds := Deleted(s.builds, pos),
            live := s.live - iset{s.items[pos].pTrampoline}))
  {
    hide CodeShows, AllSlotsOk, AllEntriesOk, AllBackedUp, AllSeparate, SlotsOwned, IsCapacity, DecoderSane;
    DeletedAt(s.items, pos);
    DeletedAt(s.builds, pos);
    hide Deleted;
    DeletedOwned(s.items, pos, s.live);
    DeletedSeparate(s.items, pos);
    DeletedEntries(w, s.items, s.builds, pos);
    DeletedSlots(w.arch, s.mem, s.items, s.builds, pos);
    DeletedCode(s.mem, w.orig, w.code, s.items, pos);
  }

  lemma HalfCapacity(capacity: nat, size: nat)
    requires IsCapacity(capacity) && Shrinks(capacity, size)
    ensures IsCapacity(capacity / 2) && size <= capacity / 2
  {
  }

  lemma HeapOnlyKeepsInv(w: World, s: HookState, capacity: nat, m': Mem)
    requires DecoderSane(w.arch, w.decode) && Inv(w, s) && HeapOnly(w, s, m')
    requires TableOk(s.(capacity := capacity))
    ensures Inv(w, s.(capacity := capacity, mem := m'))
  {
    HeapOnlyKeepsCode(w, s, m');
    HeapOnlyKeepsSlots(w, s, m');
    hide CodeShows, AllSlotsOk, AllEntriesOk, AllBackedUp, AllSeparate, SlotsOwned, TableOk;
  }

  lemma DeletedSwitched(items: seq<HookEntry>, pos: nat, e: HookEntry)
    requires pos < |items|
    ensures Deleted(items[pos := e], pos) == Deleted(items, pos)
  {
  }

  /** Removing hook pos: its code is restored, its slot returned, its entry dropped. */
  lemma RemoveKeepsInv(w: World, s: HookState, pos: nat, capacity: nat, m': Mem)
    requires DecoderSane(w.arch, w.decode) && Inv(w, s) && pos < |s.items| && s.ready
    requires capacity == s.capacity || (Shrinks(s.capacity, |s.items| - 1) && capacity == s.capacity / 2)
    requires var e := s.items[pos];
             var live' := s.live - iset{e.pTrampoline};
             var restored := if e.isEnabled then Write(s.mem, PatchAddr(e), e.backup) else s.mem;
             HeapOnly(w, s.(live := live', mem := restored), m')
    ensures Inv(w, s.(capacity := capacity, items := Deleted(s.items, pos), builds := Deleted(s.builds, pos),
                      live := s.live - iset{s.items[pos].pTrampoline}, mem := m'))
  {
    assert |s.builds| == |s.items|;
    hide Inv, HeapOnly, Write, DecoderSane;
    var e := s.items[pos];
    var restored := if e.isEnabled then Write(s.mem, PatchAddr(e), e.backup) else s.mem;
    var items1 := if e.isEnabled then s.items[pos := Switched(e, false)] else s.items;
    var s1 := s.(items := items1, mem := restored);
    if e.isEnabled {
      SwitchKeepsInv(w, s, pos, false, restored);
    }
    DropKeepsInv(w, s1, pos);
    DeletedSwitched(s.items, pos, Switched(e, false));
    DeletedAt(s.items, pos);
    hide Deleted;
    var s2 := s1.(items := Deleted(s.items, pos), builds := Deleted(s.builds, pos),
      live := s.live - iset{e.pTrampoline});
    HeapOnlySame(w, s.(live := s2.live, mem := restored), s2, m');
    CapacityAfter(w, s, s2, capacity);
    HeapOnlyKeepsInv(w, s2, capacity, m');
  }

  lemma HeapOnlySame(w: World, s: HookState, s2: HookState, m': Mem)
    requires HeapOnly(w, s, m') && s.live == s2.live && s.mem == s2.mem
    ensures HeapOnly(w, s2, m')
  {
  }

  lemma CapacityAfter(w: World, s: HookState, s2: HookState, capacity: nat)
    requires Inv(w, s) && Inv(w, s2) && s2.capacity == s.capacity && s2.ready && |s2.items| == |s.items| - 1 &&
             s2.hasItems == s.hasItems
    requires capacity == s.capacity || (Shrinks(s.capacity, |s.items| - 1) && capacity == s.capacity / 2)
    ensures TableOk(s2.(capacity := capacity))
  {
    hide CodeShows, AllSlotsOk, AllEntriesOk, AllBackedUp, AllSeparate, SlotsOwned;
    if capacity != s.capacity {
      HalfCapacity(s.capacity, |s2.items|);
    }
    hide IsCapacity;
  }

  // ---------- Every call, every run ----------

  /** Each API call keeps the invariant. */
  lemma StepKeepsInv(w: World, s: HookState, call: Call, status: Status, s': HookState)
    requires DecoderSane(w.arch, w.decode) && Inv(w, s)
    requires Admissible(w, s, call) && ApiStep(w, s, call, status, s')
    ensures Inv(w, s')
  {
    hide Inv, BulkStep, SwitchStep, CreateStep, RemoveStep, DecoderSane, Admissible;
    match call {
      case Initialize => InitializeKeepsInv(w, s, status, s');
      case Uninitialize => UninitializeKeepsInv(w, s, status, s');
      case CreateHook(target, detour) => CreateStepKeepsInv(w, s, target, detour, status, s');
      case RemoveHook(target) => RemoveStepKeepsInv(w, s, target, status, s');
      case EnableHook(target, enable) => EnableStepKeepsInv(w, s, target, enable, status, s');
      case QueueHook(target, enable) => QueueStepKeepsInv(w, s, target, enable, status, s');
      case ApplyQueued =>
        if s.ready {
          BulkStepKeepsInv(w, s, Queued, status, s');
        }
    }
  }

  lemma InitializeKeepsInv(w: World, s: HookState, status: Status, s': HookState)
    requires Inv(w, s) && InitializeStep(s, status, s')
    ensures Inv(w, s')
  {
    hide AllSlotsOk, AllEntriesOk, AllBackedUp, AllSeparate, SlotsOwned, CodeShows, IsCapacity;
  }

  lemma {:induction false} AllDisabled(items: seq<HookEntry>, i: nat)
    requires i < |items|
    ensures !SwitchedItems(items, All(false), |items|)[i].isEnabled
  {
  }

  lemma NoPatches(m: Mem, orig: Mem, code: int -> bool, items: seq<HookEntry>)
    requires CodeShows(m, orig, code, items) && forall i :: 0 <= i < |items| ==> !items[i].isEnabled
    ensures forall x :: code(x) ==> m(x) == orig(x)
    ensures CodeShows(m, orig, code, [])
  {
    hide PatchBytes;
  }

  /** MH_Uninitialize, when it succeeds, restores every code byte and leaves no slot in use. */
  lemma UninitializeRestores(w: World, s: HookState, s': HookState)
    requires DecoderSane(w.arch, w.decode) && Inv(w, s) && s.ready && UninitializeStep(s, OK, s')
    ensures forall x :: w.code(x) ==> s'.mem(x) == w.orig(x)
    ensures s'.live == iset{} && s'.items == [] && !s'.ready
    ensures CodeShows(s'.mem, w.orig, w.code, [])
  {
    hide SwitchedMem, NeedsSwitch, DecoderSane, AllSlotsOk, AllEntriesOk, AllBackedUp, AllSeparate, SlotsOwned,
         CodeShows, IsCapacity, EntryOk;
    var g, n := All(false), |s.items|;
    BulkKeepsInv(w, s, g, n);
    var done := s.(items := SwitchedItems(s.items, g, n), mem := SwitchedMem(s.mem, s.items, g, n));
    SameMemInv(w, done, s'.mem);
    forall i | 0 <= i < n
      ensures !done.items[i].isEnabled
    {
      AllDisabled(s.items, i);
    }
    NoPatches(s'.mem, w.orig, w.code, done.items);
  }

  lemma UninitializeKeepsInv(w: World, s: HookState, status: Status, s': HookState)
    requires DecoderSane(w.arch, w.decode) && Inv(w, s) && UninitializeStep(s, status, s')
    ensures Inv(w, s')
  {
    hide Inv, BulkStep, SwitchedMem, CodeShows, DecoderSane;
    if s.ready {
      if status == OK {
        UninitializeRestores(w, s, s');
        EmptyInv(w, s');
      } else {
        BulkStepKeepsInv(w, s, All(false), status, s');
      }
    }
  }

  lemma EmptyInv(w: World, s: HookState)
    requires s.items == [] && s.builds == [] && s.live == iset{} && !s.ready && !s.hasItems && s.capacity == 0
    requires CodeShows(s.mem, w.orig, w.code, [])
    ensures Inv(w, s)
  {
    hide CodeShows;
  }

  lemma FreshSlot(s: HookState, e: HookEntry)
    requires SlotsOwned(s.items, s.live) && e.pTrampoline !in s.live
    ensures forall i :: 0 <= i < |s.items| ==> s.items[i].pTrampoline != e.pTrampoline
  {
  }

  lemma CreateStepKeepsInv(w: World, s: HookState, target: nat, detour: nat, status: Status, s': HookState)
    requires DecoderSane(w.arch, w.decode) && Inv(w, s)
    requires Admissible(w, s, CreateHook(target, detour)) && CreateStep(w, s, target, detour, status, s')
    ensures Inv(w, s')
  {
    hide HeapOnly, NewEntry, SlotOk, DecoderSane, EntryOk, TargetOk, AllSlotsOk, AllEntriesOk, AllBackedUp,
         AllSeparate, CodeShows, IsCapacity;
    if s.ready && (status == ERROR_MEMORY_ALLOC || status == ERROR_UNSUPPORTED_FUNCTION) {
      HeapOnlyKeepsInv(w, s, s'.capacity, s'.mem);
    } else if s.ready && status == OK {
      var e, b :| NewEntry(w, s, target, detour, e, b)
                  && s' == HookState(true, true, Grown(s), s.items + [e], s.builds + [b], s.live + iset{e.pTrampoline},
                     s'.mem)
                  && HeapOnly(w, s, s'.mem) && SlotOk(w.arch, s'.mem, e, b);
      NewEntryFields(w, s, target, detour, e, b);
      FreshSlot(s, e);
      hide Inv;
      CreateKeepsInv(w, s, target, detour, e, b, s'.mem);
    }
  }

  lemma NewEntryFields(w: World, s: HookState, target: nat, detour: nat, e: HookEntry, b: Build)
    requires NewEntry(w, s, target, detour, e, b)
    ensures e.pTarget == target && e.pTrampoline !in s.live
  {
    hide EntryOk;
  }

  lemma RemoveStepKeepsInv(w: World, s: HookState, target: nat, status: Status, s': HookState)
    requires DecoderSane(w.arch, w.decode) && Inv(w, s) && RemoveStep(w, s, target, status, s')
    ensures Inv(w, s')
  {
    hide Inv, HeapOnly, DecoderSane, Shrinks, Write, Deleted;
    var pos := FindFrom(s.items, target, 0);
    if s.ready && pos < |s.items| && status == OK {
      RemoveKeepsInv(w, s, pos, s'.capacity, s'.mem);
    }
  }

  lemma EnableStepKeepsInv(w: World, s: HookState, target: nat, enable: bool, status: Status, s': HookState)
    requires DecoderSane(w.arch, w.decode) && Inv(w, s) && EnableStep(s, target, enable, status, s')
    ensures Inv(w, s')
  {
    hide Inv, BulkStep, SameMem, DecoderSane, Write;
    var pos := FindFrom(s.items, target, 0);
    if s.ready {
      if target == ALL_HOOKS {
        BulkStepKeepsInv(w, s, All(enable), status, s');
      } else if pos < |s.items| && s.items[pos].isEnabled != enable && status == OK {
        SwitchKeepsInv(w, s, pos, enable, s'.mem);
      }
    }
  }

  lemma QueueStepKeepsInv(w: World, s: HookState, target: nat, enable: bool, status: Status, s': HookState)
    requires Inv(w, s) && QueueStep(s, target, enable, status, s')
    ensures Inv(w, s')
  {
    hide EntryOk, SlotOk, Separate, SlotsOwned, AllSeparate, AllEntriesOk, AllBackedUp, AllSlotsOk, CodeShows,
         IsCapacity;
    assert SamePlaces(s.items, s'.items) && forall i :: 0 <= i < |s.items| ==>
           s'.items[i].isEnabled == s.items[i].isEnabled;
    FlagsKeepPlaces(w, s.items, s'.items, s.builds, s.live);
    FlagsKeepSlots(w.arch, s.mem, s.items, s'.items, s.builds);
    SameEnabledCode(s.mem, w.orig, w.code, s.items, s'.items);
  }

  lemma SameEnabledCode(m: Mem, orig: Mem, code: int -> bool, items: seq<HookEntry>, items': seq<HookEntry>)
    requires SamePlaces(items, items') && forall i :: 0 <= i < |items| ==> items'[i].isEnabled == items[i].isEnabled
    requires CodeShows(m, orig, code, items)
    ensures CodeShows(m, orig, code, items')
  {
    forall i | 0 <= i < |items|
      ensures PatchBytes(items'[i]) == PatchBytes(items[i]) && PatchAddr(items'[i]) == PatchAddr(items[i]) &&
              PatchLen(items'[i]) == PatchLen(items[i])
    {
      assert SamePlace(items[i], items'[i]);
    }
    hide PatchBytes, PatchAddr, PatchLen;
    forall x
      ensures Patched(items, x) ==> Patched(items', x)
    {
      if i :| 0 <= i < |items| && items[i].isEnabled && InWindow(items[i], x) {
        assert items'[i].isEnabled && InWindow(items'[i], x);
      }
    }
  }

  /** A run: each state follows from the one before by an API call whose hooks keep clear of each other. */
  ghost predicate IsRun(w: World, states: seq<HookState>, calls: seq<Call>, results: seq<Status>) {
    && |states| == |calls| + 1 && |results| == |calls|
    && forall i :: 0 <= i < |calls| ==>
         Admissible(w, states[i], calls[i]) && ApiStep(w, states[i], calls[i], results[i], states[i + 1])
  }

  /** The library before its first use: no hooks, and the program's own code. */
  ghost predicate Initial(w: World, s: HookState) {
    && !s.ready && !s.hasItems && s.capacity == 0 && s.items == [] && s.builds == [] && s.live == iset{}
    && forall x :: w.code(x) ==> s.mem(x) == w.orig(x)
  }

  /** After any run of API calls the code is the original code overlaid with the patches of exactly the enabled hooks,
      the backups are the original bytes, and the slots in use are exactly the trampolines of the table. */
  lemma {:induction false} RunKeepsInv(w: World, states: seq<HookState>, calls: seq<Call>, results: seq<Status>, n: nat)
    requires DecoderSane(w.arch, w.decode)
    requires IsRun(w, states, calls, results) && Initial(w, states[0]) && n < |states|
    ensures Inv(w, states[n])
  {
    hide Inv, ApiStep, Admissible, DecoderSane;
    if n == 0 {
      InitialInv(w, states[0]);
    } else {
      RunKeepsInv(w, states, calls, results, n - 1);
      StepKeepsInv(w, states[n - 1], calls[n - 1], results[n - 1], states[n]);
    }
  }

  lemma InitialInv(w: World, s: HookState)
    requires Initial(w, s)
    ensures Inv(w, s)
  {
    EmptyInv(w, s);
  }

  // ---------- Steps of the switching loop ----------

  /** The state of the switching loop when the first k hooks have been dealt with. */
  ghost predicate SwitchedTo(s0: HookState, g: Goal, k: nat, items: seq<HookEntry>, m: Mem) {
    k <= |s0.items| && items == SwitchedItems(s0.items, g, k) && SameMem(m, SwitchedMem(s0.mem, s0.items, g, k))
  }

  lemma SwitchStarts(s0: HookState, g: Goal)
    ensures SwitchedTo(s0, g, 0, s0.items, s0.mem)
  {
    assert SwitchedItems(s0.items, g, 0) == s0.items;
  }

  lemma NextToSwitch(w: World, s0: HookState, g: Goal, i: nat, items: seq<HookEntry>, m: Mem)
    requires Inv(w, s0) && SwitchedTo(s0, g, i, items, m) && i < |s0.items|
    ensures |items| == |s0.items| && items[i] == s0.items[i]
    ensures NeedsSwitch(g, s0.items[i]) <==> items[i].isEnabled != Wanted(g, items[i])
    ensures |items[i].backup| == PatchLen(items[i])
  {
    hide AllSlotsOk, AllEntriesOk, AllSeparate, SlotsOwned, CodeShows, IsCapacity, SwitchedMem, SameMem;
    BackupSize(w.orig, s0.items, i);
  }

  lemma SwitchedSkipped(s0: HookState, g: Goal, i: nat, items: seq<HookEntry>, m: Mem)
    requires SwitchedTo(s0, g, i, items, m) && i < |s0.items| && !NeedsSwitch(g, s0.items[i])
    ensures SwitchedTo(s0, g, i + 1, items, m)
  {
    SwitchedNext(s0.items, g, i);
  }

  lemma SwitchedOneMore(w: World, s0: HookState, g: Goal, i: nat, items: seq<HookEntry>, m: Mem, items': seq<HookEntry>,
                        m': Mem)
    requires DecoderSane(w.arch, w.decode) && Inv(w, s0)
    requires SwitchedTo(s0, g, i, items, m) && i < |s0.items| && NeedsSwitch(g, s0.items[i])
    requires var e := s0.items[i];
             && items' == items[i := Switched(e, Wanted(g, e))]
             && SameMem(m', Write(m, PatchAddr(e), WindowBytes(e, Wanted(g, e))))
    ensures SwitchedTo(s0, g, i + 1, items', m')
    ensures forall x :: !w.code(x) ==> m'(x) == m(x)
  {
    SwitchedNext(s0.items, g, i);
    BulkKeepsInv(w, s0, g, i);
    BulkKeepsInv(w, s0, g, i + 1);
    SameWrite(m, SwitchedMem(s0.mem, s0.items, g, i), PatchAddr(s0.items[i]),
      WindowBytes(s0.items[i], Wanted(g, s0.items[i])));
    hide Inv, SwitchedItems, NeedsSwitch, WindowBytes, Write, DecoderSane;
  }

  lemma SwitchedSize(s0: HookState, g: Goal, k: nat, items: seq<HookEntry>, m: Mem)
    requires SwitchedTo(s0, g, k, items, m)
    ensures k <= |items| == |s0.items|
  {
  }

  lemma WritableNone(protect: int -> bool, g: Goal, items: seq<HookEntry>)
    ensures Writable(protect, g, items, 0)
  {
  }

  lemma WritableNext(protect: int -> bool, g: Goal, items: seq<HookEntry>, i: nat)
    requires Writable(protect, g, items, i) && i < |items|
    ensures NeedsSwitch(g, items[i]) && !protect(PatchAddr(items[i])) ==> Refused(protect, g, items, i)
    ensures !NeedsSwitch(g, items[i]) || protect(PatchAddr(items[i])) ==> Writable(protect, g, items, i + 1)
  {
  }

  /** Which hooks have what they want when the switching loop ends. */
  lemma BulkEnds(protect: int -> bool, s0: HookState, g: Goal, k: nat, status: Status, items: seq<HookEntry>, m: Mem)
    requires SwitchedTo(s0, g, k, items, m) && Writable(protect, g, s0.items, k)
    requires if k == |s0.items| then status == OK
             else status == ERROR_MEMORY_PROTECT && Refused(protect, g, s0.items, k)
    ensures BulkOutcome(protect, g, s0.items, status, items)
  {
    hide SwitchedMem, SameMem;
    forall i | 0 <= i < |items|
      ensures items[i].isEnabled == Wanted(g, s0.items[i]) <==>
              !NeedsSwitch(g, s0.items[i]) || Writable(protect, g, s0.items, i + 1)
    {
      if i < k {
        assert Writable(protect, g, s0.items, i + 1);
      } else if k < |items| {
        assert Refused(protect, g, s0.items, k);
      }
    }
  }

  lemma SameWrite(m: Mem, m': Mem, a: int, bs: seq<Byte>)
    requires SameMem(m, m')
    ensures SameMem(Write(m, a, bs), Write(m', a, bs))
  {
  }

  lemma SwitchEnds(w: World, protect: int -> bool, s0: HookState, g: Goal, k: nat, status: Status, s: HookState)
    requires DecoderSane(w.arch, w.decode) && Inv(w, s0)
    requires SwitchedTo(s0, g, k, s.items, s.mem) && s == s0.(items := s.items, mem := s.mem) &&
             Writable(protect, g, s0.items, k)
    requires if k == |s0.items| then status == OK
             else status == ERROR_MEMORY_PROTECT && Refused(protect, g, s0.items, k)
    ensures BulkStep(s0, g, status, s) && Inv(w, s) && BulkOutcome(protect, g, s0.items, status, s.items)
  {
    BulkEnds(protect, s0, g, k, status, s.items, s.mem);
    hide Inv, SwitchedMem, SwitchedItems, NeedsSwitch, SameMem, DecoderSane, BulkOutcome, Writable;
    BulkStepKeepsInv(w, s0, g, status, s);
  }

  lemma SameSelf(m: Mem)
    ensures SameMem(m, m)
  {
  }

  /** The long jump, and the short jump behind it, as the engine writes them one after the other. */
  lemma PatchWritten(m: Mem, e: HookEntry)
    ensures var p := PatchAddr(e);
            var long := Write(Write(m, p, [0xE9]), p + 1, LE(4, Trunc32(e.pDetour - (p + JMP_REL))));
            var all := if e.patchAbove then
              Write(Write(long, e.pTarget, [0xEB]), e.pTarget + 1, [(0 - (JMP_REL_SHORT + JMP_REL)) % 0x100]) else long;
            SameMem(all, Write(m, p, PatchBytes(e)))
  {
    hide LE, Trunc32;
  }

  // ---------- Steps of MH_CreateHook ----------

  lemma IntervalsApart(code: int -> bool, target: nat, slot: nat, size: nat)
    requires JMP_REL <= target && size > 0
    requires forall x :: target - JMP_REL <= x < target + READ_AHEAD ==> code(x)
    requires forall x :: slot <= x < slot + size ==> !code(x)
    ensures Apart(target, slot, size)
  {
    var x := if slot < target - JMP_REL then target - JMP_REL else slot;
    assert code(x) || !code(x);
  }

  /** A slot not in use may be written. */
  lemma SlotWriteHeapOnly(w: World, s: HookState, m: Mem, m': Mem, slot: nat)
    requires HeapOnly(w, s, m) && OnCell(w.arch, slot) && slot !in s.live
    requires forall p: nat :: p in s.live ==> OnCell(w.arch, p)
    requires forall x :: slot <= x < slot + SlotSize(w.arch) ==> !w.code(x)
    requires forall x :: !(slot <= x < slot + SlotSize(w.arch)) ==> m'(x) == m(x)
    ensures HeapOnly(w, s, m')
  {
    hide OnCell;
    forall p: nat, x | p in s.live && p <= x < p + SlotSize(w.arch)
      ensures m'(x) == s.mem(x)
    {
      Disjoint(w.arch, p, slot);
    }
  }

  lemma LiveOnCells(w: World, s: HookState)
    requires Inv(w, s)
    ensures forall p: nat :: p in s.live ==> OnCell(w.arch, p)
  {
    hide AllSlotsOk, AllSeparate, CodeShows, IsCapacity, Layout, Listed, DetourOk, Apart, TargetOk, OnCell;
    forall p: nat | p in s.live
      ensures OnCell(w.arch, p)
    {
      var i :| 0 <= i < |s.items| && s.items[i].pTrampoline == p;
      assert EntryOk(w, s.items[i], s.builds[i]);
    }
  }

  lemma HeapOnlyMore(w: World, s: HookState, m: Mem, m': Mem)
    requires HeapOnly(w, s, m)
    requires forall x :: w.code(x) ==> m'(x) == m(x)
    requires forall p: nat, x :: p in s.live && p <= x < p + SlotSize(w.arch) ==> m'(x) == m(x)
    ensures HeapOnly(w, s, m')
  {
  }

  /** The relay of a slot within reach of the target is within reach of the patch, wherever the patch goes. */
  lemma DetourReached(arch: Arch, target: nat, slot: nat, b: nat, relay: nat, above: bool)
    requires arch == X64 && IsSlot(arch, b, slot) && InReach(arch, target, b)
    requires slot <= relay < slot + SlotSize(arch)
    ensures FitsInt32(relay - (PatchStart(target, above) + JMP_REL))
  {
  }

  lemma NewEntryOk(w: World, s: HookState, target: nat, detour: nat, b: nat, m1: Mem, e: HookEntry, x: Build)
    requires DecoderSane(w.arch, w.decode)
    requires TargetOk(w, target) && detour < Modulus(w.arch) && x == Build(x.cs, m1, detour)
    requires e.pTarget == target && Listed(e, x.cs)
    requires IsSlot(w.arch, b, e.pTrampoline) && b + BLOCK <= Modulus(w.arch) && InReach(w.arch, target, b)
    requires forall y :: e.pTrampoline <= y < e.pTrampoline + SlotSize(w.arch) ==> !w.code(y)
    requires Layout(w.arch, w.decode, m1, target, e.pTrampoline, x.cs) && PatchOk(w, e, x) && LengthOk(w, e, x)
    requires e.pDetour == if w.arch == X64 then e.pTrampoline + CodeEnd(x.cs) else detour
    ensures EntryOk(w, e, x)
  {
    IntervalsApart(w.code, target, e.pTrampoline, SlotSize(w.arch));
    ReachedSlotNear(w.arch, target, b, e.pTrampoline);
    hide CopyOk, Ends, BranchesKeepDistance, Chained, DecoderSane, Listed, FitsInt32, OnCell, PatchOk, LengthOk;
    if w.arch == X64 {
      DetourReached(w.arch, target, e.pTrampoline, b, e.pDetour, e.patchAbove);
    }
  }
}
