/**
 What the builder reads when a hook is created is the program's own code: always in the bytes that the
 patch will cover, and in all bytes it looks at if the hooked functions keep far enough apart. A run of
 API calls never loses this, so trampolines can be compared with the program itself.
 */
module HookOrigin {
  import opened Bytes
  import opened Cpu
  import opened TrampolineSpec
  import opened TrampolineBuilder
  import opened TrampolineCode
  import opened SlotHeap
  import opened Buffer
  import opened HookSpec
  import opened HookRuns

  /** The bytes of hook e that matter: all that the builder looks at, or those that the patch covers. */
  predicate Looked(e: HookEntry, far: bool, x: int) {
    if far then e.pTarget - JMP_REL <= x < e.pTarget + READ_AHEAD else InWindow(e, x)
  }

  /** The trampoline of e was built from original code. */
  ghost predicate SeenOriginal(w: World, e: HookEntry, b: Build, far: bool) {
    forall x :: Looked(e, far, x) ==> b.seen(x) == w.orig(x)
  }

  ghost predicate AllSeenOriginal(w: World, items: seq<HookEntry>, builds: seq<Build>, far: bool)
    requires |builds| == |items|
  {
    forall i :: 0 <= i < |items| ==> SeenOriginal(w, items[i], builds[i], far)
  }

  /** Functions this far apart have their patches outside what the builder looks at for the other. */
  const SPACING: nat := JMP_REL + READ_AHEAD

  /** A hook to be created keeps that distance. */
  ghost predicate Spaced(s: HookState, call: Call) {
    call.CreateHook? ==>
      forall i :: 0 <= i < |s.items| && s.items[i].pTarget != call.target ==>
        call.target + SPACING <= s.items[i].pTarget || s.items[i].pTarget + SPACING <= call.target
  }

  // ---------- One call ----------

  lemma LookedIsCode(w: World, e: HookEntry, b: Build, far: bool, x: int)
    requires EntryOk(w, e, b) && Looked(e, far, x)
    ensures w.code(x)
  {
    hide Layout, Listed, PatchOk, LengthOk, DetourOk, Apart, SlotNear, OnCell;
  }

  /** Where no enabled hook has its patch, the code is original. */
  lemma NewSeen(w: World, s: HookState, target: nat, detour: nat, e: HookEntry, b: Build, far: bool)
    requires Inv(w, s) && NewEntry(w, s, target, detour, e, b)
    requires forall i, x :: 0 <= i < |s.items| && InWindow(s.items[i], x) ==> !Looked(e, far, x)
    ensures SeenOriginal(w, e, b, far)
  {
    hide EntryOk, SlotOk, AllSlotsOk, AllEntriesOk, AllSeparate, SlotsOwned, AllBackedUp, IsCapacity, PatchBytes,
         Looked, InWindow, Read;
    forall x | Looked(e, far, x)
      ensures b.seen(x) == w.orig(x)
    {
      LookedIsCode(w, e, b, far, x);
    }
  }

  lemma PatchElsewhere(e: HookEntry, f: HookEntry, far: bool, x: int)
    requires if far then e.pTarget + SPACING <= f.pTarget || f.pTarget + SPACING <= e.pTarget else Separate(f, e)
    requires InWindow(f, x)
    ensures !Looked(e, far, x)
  {
  }

  lemma SeenMore(w: World, items: seq<HookEntry>, builds: seq<Build>, e: HookEntry, b: Build, far: bool)
    requires |builds| == |items| && AllSeenOriginal(w, items, builds, far) && SeenOriginal(w, e, b, far)
    ensures AllSeenOriginal(w, items + [e], builds + [b], far)
  {
    hide SeenOriginal;
  }

  lemma SeenLess(w: World, items: seq<HookEntry>, builds: seq<Build>, pos: nat, far: bool)
    requires pos < |items| == |builds| && AllSeenOriginal(w, items, builds, far)
    ensures |Deleted(builds, pos)| == |Deleted(items, pos)|
    ensures AllSeenOriginal(w, Deleted(items, pos), Deleted(builds, pos), far)
  {
    DeletedAt(items, pos);
    DeletedAt(builds, pos);
    hide Deleted, SeenOriginal;
  }

  lemma SeenSamePlaces(w: World, items: seq<HookEntry>, items': seq<HookEntry>, builds: seq<Build>, far: bool)
    requires |builds| == |items| && AllSeenOriginal(w, items, builds, far) && SamePlaces(items, items')
    ensures AllSeenOriginal(w, items', builds, far)
  {
    forall i | 0 <= i < |items'|
      ensures SeenOriginal(w, items'[i], builds[i], far)
    {
      SeenSamePlace(w, items[i], items'[i], builds[i], far);
    }
    hide SeenOriginal;
  }

  lemma SeenSamePlace(w: World, e: HookEntry, f: HookEntry, b: Build, far: bool)
    requires SeenOriginal(w, e, b, far) && SamePlace(e, f)
    ensures SeenOriginal(w, f, b, far)
  {
    assert forall x :: Looked(f, far, x) <==> Looked(e, far, x);
    hide Looked;
  }

  /** The entry added by a successful create is apart from all others. */
  lemma NewEntryClear(w: World, s: HookState, target: nat, detour: nat, e: HookEntry, i: nat, x: int, far: bool)
    requires Admissible(w, s, CreateHook(target, detour)) && (far ==> Spaced(s, CreateHook(target, detour)))
    requires FindFrom(s.items, target, 0) == |s.items| && i < |s.items| && InWindow(s.items[i], x)
    requires e.pTarget == target && s.items[i].pTrampoline != e.pTrampoline
    ensures !Looked(e, far, x)
  {
    hide TargetOk, Looked, InWindow;
    PatchElsewhere(e, s.items[i], far, x);
  }

  lemma CreateKeepsSeen(w: World, s: HookState, target: nat, detour: nat, status: Status, s': HookState, far: bool)
    requires Inv(w, s) && AllSeenOriginal(w, s.items, s.builds, far)
    requires Admissible(w, s, CreateHook(target, detour)) && (far ==> Spaced(s, CreateHook(target, detour)))
    requires CreateStep(w, s, target, detour, status, s')
    ensures |s'.builds| == |s'.items| && AllSeenOriginal(w, s'.items, s'.builds, far)
  {
    hide NewEntry, HeapOnly, SlotOk, Unhookable, AllSeenOriginal, Admissible, Spaced, Looked, InWindow, AllSlotsOk,
         AllEntriesOk, AllSeparate, AllBackedUp, CodeShows, IsCapacity, Grown;
    if s.ready && status == OK && s'.items != s.items {
      var e, b :| NewEntry(w, s, target, detour, e, b)
                  && s' == HookState(true, true, Grown(s), s.items + [e], s.builds + [b], s.live + iset{e.pTrampoline},
                     s'.mem)
                  && HeapOnly(w, s, s'.mem) && SlotOk(w.arch, s'.mem, e, b);
      NewEntryFields(w, s, target, detour, e, b);
      FreshSlot(s, e);
      forall i, x | 0 <= i < |s.items| && InWindow(s.items[i], x)
        ensures !Looked(e, far, x)
      {
        NewEntryClear(w, s, target, detour, e, i, x, far);
      }
      NewSeen(w, s, target, detour, e, b, far);
      SeenMore(w, s.items, s.builds, e, b, far);
    }
  }

  lemma BulkKeepsSeen(w: World, s: HookState, g: Goal, status: Status, s': HookState, far: bool)
    requires |s.builds| == |s.items| && AllSeenOriginal(w, s.items, s.builds, far) && BulkStep(s, g, status, s')
    ensures |s'.builds| == |s'.items| && AllSeenOriginal(w, s'.items, s'.builds, far)
  {
    hide AllSeenOriginal, SwitchedMem, SameMem, NeedsSwitch;
    assert SamePlaces(s.items, s'.items);
    SeenSamePlaces(w, s.items, s'.items, s.builds, far);
  }

  lemma OneKeepsSeen(w: World, s: HookState, pos: nat, e: HookEntry, far: bool)
    requires |s.builds| == |s.items| && AllSeenOriginal(w, s.items, s.builds, far)
    requires pos < |s.items| && SamePlace(s.items[pos], e)
    ensures AllSeenOriginal(w, s.items[pos := e], s.builds, far)
  {
    hide AllSeenOriginal;
    SeenSamePlaces(w, s.items, s.items[pos := e], s.builds, far);
  }

  lemma EnableKeepsSeen(w: World, s: HookState, target: nat, enable: bool, status: Status, s': HookState, far: bool)
    requires |s.builds| == |s.items| && AllSeenOriginal(w, s.items, s.builds, far)
    requires EnableStep(s, target, enable, status, s')
    ensures |s'.builds| == |s'.items| && AllSeenOriginal(w, s'.items, s'.builds, far)
  {
    hide AllSeenOriginal, BulkStep, SameMem, Write, WindowBytes;
    var pos := FindFrom(s.items, target, 0);
    if s.ready && target == ALL_HOOKS {
      BulkKeepsSeen(w, s, All(enable), status, s', far);
    } else if s.ready && pos < |s.items| {
      OneKeepsSeen(w, s, pos, Switched(s.items[pos], enable), far);
    }
  }

  lemma QueueKeepsSeen(w: World, s: HookState, target: nat, enable: bool, status: Status, s': HookState, far: bool)
    requires |s.builds| == |s.items| && AllSeenOriginal(w, s.items, s.builds, far)
    requires QueueStep(s, target, enable, status, s')
    ensures |s'.builds| == |s'.items| && AllSeenOriginal(w, s'.items, s'.builds, far)
  {
    hide AllSeenOriginal;
    assert SamePlaces(s.items, s'.items);
    SeenSamePlaces(w, s.items, s'.items, s.builds, far);
  }

  lemma RemoveKeepsSeen(w: World, s: HookState, target: nat, status: Status, s': HookState, far: bool)
    requires |s.builds| == |s.items| && AllSeenOriginal(w, s.items, s.builds, far)
    requires RemoveStep(w, s, target, status, s')
    ensures |s'.builds| == |s'.items| && AllSeenOriginal(w, s'.items, s'.builds, far)
  {
    hide AllSeenOriginal, HeapOnly, Shrinks, Write, Deleted;
    var pos := FindFrom(s.items, target, 0);
    if s.ready && pos < |s.items| {
      SeenLess(w, s.items, s.builds, pos, far);
    }
  }

  /** Every call leaves the trampolines built from original code. */
  lemma StepKeepsSeen(w: World, s: HookState, call: Call, status: Status, s': HookState, far: bool)
    requires Inv(w, s) && AllSeenOriginal(w, s.items, s.builds, far)
    requires Admissible(w, s, call) && (far ==> Spaced(s, call)) && ApiStep(w, s, call, status, s')
    ensures |s'.builds| == |s'.items| && AllSeenOriginal(w, s'.items, s'.builds, far)
  {
    assert |s.builds| == |s.items|;
    hide Inv, AllSeenOriginal, Admissible, Spaced, BulkStep, CreateStep, RemoveStep, EnableStep, QueueStep;
    match call {
      case Initialize =>
      case Uninitialize =>
        if s.ready {
          if status == OK {
            NoneSeen(w, far);
          } else {
            BulkKeepsSeen(w, s, All(false), status, s', far);
          }
        }
      case CreateHook(target, detour) => CreateKeepsSeen(w, s, target, detour, status, s', far);
      case RemoveHook(target) => RemoveKeepsSeen(w, s, target, status, s', far);
      case EnableHook(target, enable) => EnableKeepsSeen(w, s, target, enable, status, s', far);
      case QueueHook(target, enable) => QueueKeepsSeen(w, s, target, enable, status, s', far);
      case ApplyQueued =>
        if s.ready {
          BulkKeepsSeen(w, s, Queued, status, s', far);
        }
    }
  }

  lemma NoneSeen(w: World, far: bool)
    ensures AllSeenOriginal(w, [], [], far)
  {
  }

  // ---------- Runs ----------

  ghost predicate SpacedRun(states: seq<HookState>, calls: seq<Call>) {
    |states| == |calls| + 1 && forall i :: 0 <= i < |calls| ==> Spaced(states[i], calls[i])
  }

  /**
   After any run of API calls every trampoline was built from bytes that are original where its patch
   goes, and original as far as the builder looks if the hooked functions keep 45 bytes apart.
   */
  lemma {:induction false} RunSeesOriginal(w: World, states: seq<HookState>, calls: seq<Call>, results: seq<Status>,
                                           n: nat, far: bool)
    requires DecoderSane(w.arch, w.decode)
    requires IsRun(w, states, calls, results) && Initial(w, states[0]) && n < |states|
    requires far ==> SpacedRun(states, calls)
    ensures Inv(w, states[n]) && |states[n].builds| == |states[n].items|
    ensures AllSeenOriginal(w, states[n].items, states[n].builds, far)
  {
    RunKeepsInv(w, states, calls, results, n);
    hide Inv, ApiStep, Admissible, DecoderSane, Spaced, AllSeenOriginal;
    if n == 0 {
      NoneSeen(w, far);
    } else {
      RunSeesOriginal(w, states, calls, results, n - 1, far);
      StepKeepsSeen(w, states[n - 1], calls[n - 1], results[n - 1], states[n], far);
    }
    SizesAgree(w, states[n]);
  }

  lemma SizesAgree(w: World, s: HookState)
    requires Inv(w, s)
    ensures |s.builds| == |s.items|
  {
  }

  // ---------- Trampolines of the program's own code ----------

  /** The record of a build, had it read the program's original memory. */
  function FromOriginal(w: World, b: Build): Build {
    b.(seen := w.orig)
  }

  function OnOriginal(w: World, s: HookState): (r: HookState)
    ensures |r.builds| == |s.builds| && forall i :: 0 <= i < |s.builds| ==> r.builds[i] == FromOriginal(w, s.builds[i])
  {
    s.(builds := seq(|s.builds|, i requires 0 <= i < |s.builds| => FromOriginal(w, s.builds[i])))
  }

  /** One instruction of the count. */
  lemma LengthStep(arch: Arch, decode: Decoder, m: Mem, target: nat, off: nat, far: nat, next: nat)
    requires DecoderSane(arch, decode)
    requires var h := InstrAt(decode, m, target, off);
             var d := if off < JMP_REL && StaysInside(arch, target, h, off) then Dest(arch, h, target + off) else 0;
             next == if far < d then d else far
    ensures var h := InstrAt(decode, m, target, off);
            CodeLength(arch, decode, m, target, off, far) ==
            if Finishes(arch, target, h, off, next) then off + h.len
            else CodeLength(arch, decode, m, target, off + h.len, next)
  {
    hide StaysInside, Finishes, Dest, InstrAt, DecoderSane;
  }

  lemma {:induction false} SameLength(arch: Arch, decode: Decoder, m: Mem, m': Mem, target: nat, off: nat, far: nat)
    requires DecoderSane(arch, decode) && off <= 19 && Agree(m, m', target, READ_AHEAD)
    ensures CodeLength(arch, decode, m, target, off, far) == CodeLength(arch, decode, m', target, off, far)
    decreases if off < JMP_REL then JMP_REL - off else 0
  {
    hide *;
    InstrLength(arch, decode, m, m', target, off);
    var h := InstrAt(decode, m, target, off);
    var d := if off < JMP_REL && StaysInside(arch, target, h, off) then Dest(arch, h, target + off) else 0;
    var next := if far < d then d else far;
    LengthStep(arch, decode, m, target, off, far, next);
    LengthStep(arch, decode, m', target, off, far, next);
    if !Finishes(arch, target, h, off, next) {
      NotFinished(arch, target, h, off, next);
      SameLength(arch, decode, m, m', target, off + h.len, next);
    }
  }

  lemma InstrLength(arch: Arch, decode: Decoder, m: Mem, m': Mem, target: nat, off: nat)
    requires DecoderSane(arch, decode) && off <= 19 && Agree(m, m', target, READ_AHEAD)
    ensures InstrAt(decode, m, target, off) == InstrAt(decode, m', target, off)
    ensures var n := InstrAt(decode, m, target, off).len; 1 <= n && (off < JMP_REL ==> off + n <= 19)
  {
    ReadAgree(m, m', target + off, WINDOW);
  }

  /** What was copied is what the other memory holds. */
  lemma SameLayout(arch: Arch, decode: Decoder, m: Mem, m': Mem, target: nat, slot: nat, cs: seq<Copy>)
    requires DecoderSane(arch, decode) && Layout(arch, decode, m, target, slot, cs) && Agree(m, m', target, READ_AHEAD)
    ensures Layout(arch, decode, m', target, slot, cs)
  {
    BoundariesFit(arch, decode, m, target, slot, cs);
    hide CopyOk, Ends, BranchesKeepDistance, Chained, Agree, DecoderSane;
    forall i | 0 <= i < |cs|
      ensures CopyOk(arch, decode, m', target, slot, cs[i])
    {
      SameCopy(arch, decode, m, m', target, slot, cs[i]);
    }
  }

  lemma SameCopy(arch: Arch, decode: Decoder, m: Mem, m': Mem, target: nat, slot: nat, c: Copy)
    requires DecoderSane(arch, decode) && CopyOk(arch, decode, m, target, slot, c)
    requires c.oldPos <= 19 && Agree(m, m', target, READ_AHEAD)
    ensures CopyOk(arch, decode, m', target, slot, c)
  {
    SameInstruction(arch, decode, m, m', target, slot, c.oldPos, c.newPos);
    hide Translate, JmpCode, Agree, Read, DecoderSane;
  }

  /** An entry whose code was seen as it is in the program satisfies the same conditions over the program. */
  lemma EntryOnOriginal(w: World, e: HookEntry, b: Build)
    requires DecoderSane(w.arch, w.decode) && EntryOk(w, e, b) && SeenOriginal(w, e, b, true)
    ensures EntryOk(w, e, FromOriginal(w, b))
  {
    assert JMP_REL < e.pTarget;
    assert Agree(b.seen, w.orig, e.pTarget - JMP_REL, JMP_REL + READ_AHEAD) &&
           Agree(b.seen, w.orig, e.pTarget, READ_AHEAD);
    hide SeenOriginal, Agree, TargetOk;
    SameLayout(w.arch, w.decode, b.seen, w.orig, e.pTarget, e.pTrampoline, b.cs);
    SameLength(w.arch, w.decode, b.seen, w.orig, e.pTarget, 0, 0);
    SamePatch(w, e, b);
    hide Layout, PatchOk, CodeLength, DecoderSane, Apart, OnCell, Listed, DetourOk;
  }

  lemma SamePatch(w: World, e: HookEntry, b: Build)
    requires JMP_REL <= e.pTarget && Agree(b.seen, w.orig, e.pTarget - JMP_REL, JMP_REL + READ_AHEAD)
    requires PatchOk(w, e, b)
    ensures PatchOk(w, e, FromOriginal(w, b))
  {
    SameRoom(b.seen, w.orig, e.pTarget, SourceEnd(b.cs));
    hide Room, IsPadding, Agree;
  }

  /** With all code seen as it is in the program, the invariant holds of builds from the program itself. */
  lemma InvOnOriginal(w: World, s: HookState)
    requires DecoderSane(w.arch, w.decode) && Inv(w, s)
    requires |s.builds| == |s.items| && AllSeenOriginal(w, s.items, s.builds, true)
    ensures Inv(w, OnOriginal(w, s))
  {
    var r := OnOriginal(w, s);
    hide EntryOk, SlotOk, CodeShows, SeenOriginal, DecoderSane, OnOriginal, AllSeparate, AllBackedUp, SlotsOwned,
         IsCapacity;
    assert r == s.(builds := r.builds) by {
      OnlyBuilds(w, s);
    }
    forall i | 0 <= i < |s.items|
      ensures EntryOk(w, r.items[i], r.builds[i]) && SlotOk(w.arch, r.mem, r.items[i], r.builds[i])
    {
      EntryOnOriginal(w, s.items[i], s.builds[i]);
      SameSlot(w, s.mem, s.items[i], s.builds[i]);
    }
  }

  lemma OnlyBuilds(w: World, s: HookState)
    ensures OnOriginal(w, s) == s.(builds := OnOriginal(w, s).builds)
  {
  }

  lemma SameSlot(w: World, m: Mem, e: HookEntry, b: Build)
    ensures SlotOk(w.arch, m, e, FromOriginal(w, b)) <==> SlotOk(w.arch, m, e, b)
  {
    hide SlotHolds, Read, JmpCode;
  }
}
