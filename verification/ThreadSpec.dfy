/**
 hook.c: where the instruction pointer of a suspended thread is moved when hooks are switched, and
 why no thread is left in bytes that are about to be overwritten or freed.
 */
module ThreadSpec {
  import opened Bytes
  import opened Cpu
  import opened TrampolineSpec
  import opened TrampolineBuilder
  import opened SlotHeap
  import opened HookSpec

  datatype Action = ACTION_DISABLE | ACTION_ENABLE | ACTION_APPLY_QUEUED

  function Enabling(action: Action, e: HookEntry): bool {
    match action
    case ACTION_DISABLE => false
    case ACTION_ENABLE => true
    case ACTION_APPLY_QUEUED => e.queueEnable
  }

  /** The first of the n boundaries keys[i..] that lies at ip, counted from base; n if there is none. */
  function Lookup(keys: seq<Byte>, n: nat, base: nat, ip: nat, i: nat): (k: nat)
    requires i <= n <= |keys|
    ensures i <= k <= n
    ensures k < n ==> base + keys[k] == ip
    ensures forall j :: i <= j < k ==> base + keys[j] != ip
    decreases n - i
  {
    if i == n || base + keys[i] == ip then i else Lookup(keys, n, base, ip, i + 1)
  }

  predicate TablesOk(e: HookEntry) {
    e.nIP <= MAX_IPS == |e.oldIPs| == |e.newIPs|
  }

  /** Where a thread at ip in the target goes on in the trampoline; 0 if ip is no copied boundary. */
  function NewIp(e: HookEntry, ip: nat): nat
    requires TablesOk(e)
  {
    var k := Lookup(e.oldIPs, e.nIP, e.pTarget, ip, 0);
    if k < e.nIP then e.pTrampoline + e.newIPs[k] else 0
  }

  /**
   Where a thread at ip in the trampoline, the relay or the hot-patch area goes on in the target; 0 for any
   other ip.
   */
  function OldIp(arch: Arch, e: HookEntry, ip: nat): nat
    requires TablesOk(e)
  {
    var k := Lookup(e.newIPs, e.nIP, e.pTrampoline, ip, 0);
    if e.patchAbove && ip == e.pTarget - JMP_REL then e.pTarget
    else if k < e.nIP then e.pTarget + e.oldIPs[k]
    else if arch == X64 && ip == e.pDetour then e.pTarget
    else 0
  }

  /** The address at which one hook makes a thread at ip go on; 0 if it leaves the thread alone. */
  function Redirect(arch: Arch, action: Action, e: HookEntry, ip: nat): nat
    requires TablesOk(e)
  {
    if e.isEnabled == Enabling(action, e) then 0
    else if Enabling(action, e) then NewIp(e, ip)
    else OldIp(arch, e, ip)
  }

  /** What one hook does to an instruction pointer. */
  function MoveIp(arch: Arch, action: Action, e: HookEntry, ip: nat): nat
    requires TablesOk(e)
  {
    var r := Redirect(arch, action, e, ip);
    if r != 0 then r else ip
  }

  ghost predicate AllTablesOk(items: seq<HookEntry>) {
    forall i :: 0 <= i < |items| ==> TablesOk(items[i])
  }

  /** What hooks pos..count-1 do to an instruction pointer, one after the other. */
  ghost function MoveThrough(arch: Arch, items: seq<HookEntry>, pos: nat, count: nat, action: Action, ip: nat): nat
    requires pos <= count <= |items| && AllTablesOk(items)
    decreases count - pos
  {
    if pos == count then ip else MoveThrough(arch, items, pos + 1, count, action, MoveIp(arch, action, items[pos], ip))
  }

  // ---------- The boundary tables are inverse to each other ----------

  /** ip is boundary k of the target, or of the trampoline. */
  predicate OldBoundary(e: HookEntry, ip: nat, k: nat)
    requires TablesOk(e)
  {
    k < e.nIP && ip == e.pTarget + e.oldIPs[k]
  }

  predicate NewBoundary(e: HookEntry, ip: nat, k: nat)
    requires TablesOk(e)
  {
    k < e.nIP && ip == e.pTrampoline + e.newIPs[k]
  }

  /** The tables start at 0 and increase in lockstep. */
  lemma TablesIncrease(w: World, e: HookEntry, b: Build, i: nat, j: nat)
    requires DecoderSane(w.arch, w.decode) && EntryOk(w, e, b) && i < j < e.nIP
    ensures e.oldIPs[i] < e.oldIPs[j] && e.newIPs[i] < e.newIPs[j]
    ensures e.oldIPs[0] == 0 && e.newIPs[0] == 0
  {
    LayoutIsShaped(w.arch, w.decode, b.seen, e.pTarget, e.pTrampoline, b.cs);
    hide Layout, DecoderSane, DetourOk, PatchOk, LengthOk, Apart, TargetOk;
    Increasing(b.cs, i, j);
  }

  lemma TablesUnique(w: World, e: HookEntry, b: Build, i: nat, j: nat)
    requires DecoderSane(w.arch, w.decode) && EntryOk(w, e, b) && i < e.nIP && j < e.nIP
    requires e.oldIPs[i] == e.oldIPs[j] || e.newIPs[i] == e.newIPs[j]
    ensures i == j
  {
    hide EntryOk, DecoderSane;
    if i < j {
      TablesIncrease(w, e, b, i, j);
    } else if j < i {
      TablesIncrease(w, e, b, j, i);
    }
  }

  lemma EntryTables(w: World, e: HookEntry, b: Build)
    requires EntryOk(w, e, b)
    ensures TablesOk(e)
  {
    hide Layout, DetourOk, PatchOk, LengthOk, Apart, TargetOk;
  }

  /** FindNewIP answers exactly for the copied boundaries, with the same boundary of the trampoline. */
  lemma NewIpExact(w: World, e: HookEntry, b: Build, ip: nat)
    requires DecoderSane(w.arch, w.decode) && EntryOk(w, e, b) && TablesOk(e)
    ensures NewIp(e, ip) != 0 <==> exists k :: OldBoundary(e, ip, k)
    ensures forall k :: OldBoundary(e, ip, k) ==> NewBoundary(e, NewIp(e, ip), k)
  {
    var k := Lookup(e.oldIPs, e.nIP, e.pTarget, ip, 0);
    Bounds(w, e, b);
    hide EntryOk, DecoderSane;
    forall j | OldBoundary(e, ip, j)
      ensures NewBoundary(e, NewIp(e, ip), j)
    {
      assert k < e.nIP;
      TablesUnique(w, e, b, j, k);
    }
    if k < e.nIP {
      assert OldBoundary(e, ip, k);
    }
  }

  /** Numbers of an entry. */
  lemma Bounds(w: World, e: HookEntry, b: Build)
    requires DecoderSane(w.arch, w.decode) && EntryOk(w, e, b)
    ensures TablesOk(e) && JMP_REL < e.pTarget && JMP_REL <= e.pTrampoline && OnCell(w.arch, e.pTrampoline)
    ensures forall k :: 0 <= k < e.nIP ==> e.oldIPs[k] <= 19 && e.newIPs[k] < SlotSize(w.arch)
    ensures w.arch == X64 ==> e.pTrampoline <= e.pDetour < e.pTrampoline + SlotSize(w.arch)
    ensures Apart(e.pTarget, e.pTrampoline, SlotSize(w.arch))
    ensures forall x :: e.pTrampoline <= x < e.pTrampoline + SlotSize(w.arch) ==> !w.code(x)
    ensures forall x :: e.pTarget - JMP_REL <= x < e.pTarget + READ_AHEAD ==> w.code(x)
  {
    LayoutIsShaped(w.arch, w.decode, b.seen, e.pTarget, e.pTrampoline, b.cs);
    BoundariesFit(w.arch, w.decode, b.seen, e.pTarget, e.pTrampoline, b.cs);
    hide CopyOk, DecoderSane, Ends, BranchesKeepDistance, Chained, FitsInt32, OnCell, PatchOk, LengthOk;
  }

  /** FindOldIP answers exactly for the boundaries of the trampoline, the relay and the jump above the target. */
  lemma OldIpExact(w: World, e: HookEntry, b: Build, ip: nat)
    requires DecoderSane(w.arch, w.decode) && EntryOk(w, e, b) && TablesOk(e)
    ensures OldIp(w.arch, e, ip) != 0 <==>
              || (exists k :: NewBoundary(e, ip, k))
              || (w.arch == X64 && ip == e.pDetour)
              || (e.patchAbove && ip == e.pTarget - JMP_REL)
    ensures forall k :: NewBoundary(e, ip, k) ==> OldBoundary(e, OldIp(w.arch, e, ip), k)
    ensures OldIp(w.arch, e, ip) != 0 && !(exists k :: NewBoundary(e, ip, k)) ==> OldIp(w.arch, e, ip) == e.pTarget
  {
    var k := Lookup(e.newIPs, e.nIP, e.pTrampoline, ip, 0);
    Bounds(w, e, b);
    hide EntryOk, DecoderSane;
    forall j | NewBoundary(e, ip, j)
      ensures OldBoundary(e, OldIp(w.arch, e, ip), j)
    {
      assert k < e.nIP;
      TablesUnique(w, e, b, j, k);
    }
    if k < e.nIP {
      assert NewBoundary(e, ip, k);
    }
  }

  /** Moving a copied boundary to the trampoline and back gives the same address, and the other way round. */
  lemma TablesInverse(w: World, e: HookEntry, b: Build, ip: nat, k: nat)
    requires DecoderSane(w.arch, w.decode) && EntryOk(w, e, b) && TablesOk(e)
    ensures OldBoundary(e, ip, k) ==> OldIp(w.arch, e, NewIp(e, ip)) == ip
    ensures NewBoundary(e, ip, k) ==> NewIp(e, OldIp(w.arch, e, ip)) == ip
  {
    hide EntryOk, DecoderSane, NewIp, OldIp;
    NewIpExact(w, e, b, ip);
    OldIpExact(w, e, b, ip);
    if OldBoundary(e, ip, k) {
      OldIpExact(w, e, b, NewIp(e, ip));
    }
    if NewBoundary(e, ip, k) {
      NewIpExact(w, e, b, OldIp(w.arch, e, ip));
    }
  }

  // ---------- One move at most ----------

  predicate InSlotOf(arch: Arch, e: HookEntry, x: int) {
    e.pTrampoline <= x < e.pTrampoline + SlotSize(arch)
  }

  /** The hot-patch area and the bytes that boundaries can lie in. */
  predicate InRegion(e: HookEntry, x: int) {
    e.pTarget - JMP_REL <= x < e.pTarget + 20
  }

  predicate Near(arch: Arch, e: HookEntry, x: int) {
    InRegion(e, x) || InSlotOf(arch, e, x)
  }

  /** Hooks whose regions do not overlap. */
  ghost predicate DisjointRegions(items: seq<HookEntry>) {
    forall i, j :: 0 <= i < |items| && 0 <= j < |items| && i != j ==>
      items[i].pTarget + 20 + JMP_REL <= items[j].pTarget || items[j].pTarget + 20 + JMP_REL <= items[i].pTarget
  }

  /** A hook moves only what lies in its slot or region, and only into its slot or region. */
  lemma MoveStaysNear(w: World, action: Action, e: HookEntry, b: Build, ip: nat)
    requires DecoderSane(w.arch, w.decode) && EntryOk(w, e, b) && TablesOk(e)
    ensures var r := MoveIp(w.arch, action, e, ip);
            r != ip ==>
              && e.isEnabled != Enabling(action, e) && Near(w.arch, e, ip)
              && if Enabling(action, e) then InSlotOf(w.arch, e, r) else e.pTarget <= r < e.pTarget + 20
  {
    Bounds(w, e, b);
    NewIpExact(w, e, b, ip);
    OldIpExact(w, e, b, ip);
    hide EntryOk, DecoderSane, NewIp, OldIp;
    if Enabling(action, e) {
      if k :| OldBoundary(e, ip, k) {
        assert NewBoundary(e, NewIp(e, ip), k);
      }
    } else {
      if k :| NewBoundary(e, ip, k) {
        assert OldBoundary(e, OldIp(w.arch, e, ip), k);
      }
    }
  }

  lemma NearCode(w: World, e: HookEntry, b: Build, x: int)
    requires DecoderSane(w.arch, w.decode) && EntryOk(w, e, b)
    ensures InRegion(e, x) ==> w.code(x)
    ensures InSlotOf(w.arch, e, x) ==> !w.code(x)
    ensures OnCell(w.arch, e.pTrampoline)
  {
    Bounds(w, e, b);
    hide EntryOk, DecoderSane, OnCell, Apart;
    var c := w.code(x);
  }

  lemma NearOne(w: World, e: HookEntry, b: Build, f: HookEntry, c: Build, x: int)
    requires DecoderSane(w.arch, w.decode) && EntryOk(w, e, b) && EntryOk(w, f, c)
    requires e.pTrampoline != f.pTrampoline
    requires e.pTarget + 20 + JMP_REL <= f.pTarget || f.pTarget + 20 + JMP_REL <= e.pTarget
    ensures Near(w.arch, e, x) ==> !Near(w.arch, f, x)
  {
    NearCode(w, e, b, x);
    NearCode(w, f, c, x);
    hide EntryOk, DecoderSane, OnCell;
    Disjoint(w.arch, e.pTrampoline, f.pTrampoline);
  }

  /** A table whose hooks may be looked at one by one. */
  ghost predicate Spread(w: World, items: seq<HookEntry>, builds: seq<Build>) {
    && |builds| == |items| && AllEntriesOk(w, items, builds) && AllTablesOk(items) && DisjointRegions(items)
    && forall i, j :: 0 <= i < j < |items| ==> items[i].pTrampoline != items[j].pTrampoline
  }

  lemma SpreadNear(w: World, items: seq<HookEntry>, builds: seq<Build>, i: nat, j: nat, x: int)
    requires DecoderSane(w.arch, w.decode) && Spread(w, items, builds) && i < |items| && j < |items| && i != j
    ensures Near(w.arch, items[i], x) ==> !Near(w.arch, items[j], x)
  {
    hide EntryOk, DecoderSane, Near;
    assert items[i].pTrampoline != items[j].pTrampoline by {
      if i < j {
        assert items[i].pTrampoline != items[j].pTrampoline;
      } else {
        assert items[j].pTrampoline != items[i].pTrampoline;
      }
    }
    NearOne(w, items[i], builds[i], items[j], builds[j], x);
  }

  lemma SpreadMove(w: World, items: seq<HookEntry>, builds: seq<Build>, action: Action, i: nat, ip: nat)
    requires DecoderSane(w.arch, w.decode) && Spread(w, items, builds) && i < |items|
    ensures var e, r := items[i], MoveIp(w.arch, action, items[i], ip);
            r != ip ==>
              && e.isEnabled != Enabling(action, e) && Near(w.arch, e, ip) && Near(w.arch, e, r)
              && if Enabling(action, e) then InSlotOf(w.arch, e, r) else e.pTarget <= r < e.pTarget + 20
  {
    hide EntryOk, DecoderSane, MoveIp;
    MoveStaysNear(w, action, items[i], builds[i], ip);
  }

  /** A thread is moved by at most one hook, to the address that hook's tables give for where it was suspended. */
  lemma {:induction false} MovedOnce(w: World, items: seq<HookEntry>, builds: seq<Build>, pos: nat, count: nat,
                                     action: Action, ip: nat)
    requires DecoderSane(w.arch, w.decode) && Spread(w, items, builds) && pos <= count <= |items|
    ensures var r := MoveThrough(w.arch, items, pos, count, action, ip);
            || (r == ip && forall i :: pos <= i < count ==> MoveIp(w.arch, action, items[i], ip) == ip)
            || (exists i :: pos <= i < count && r == MoveIp(w.arch, action, items[i], ip) && r != ip)
    decreases count - pos
  {
    hide EntryOk, DecoderSane, MoveIp, Spread, Near;
    assert AllTablesOk(items) by {
      SpreadTables(w, items, builds);
    }
    if pos < count {
      var ip1 := MoveIp(w.arch, action, items[pos], ip);
      MovedOnce(w, items, builds, pos + 1, count, action, ip1);
      if ip1 != ip {
        SpreadMove(w, items, builds, action, pos, ip);
        forall i | pos + 1 <= i < count
          ensures MoveIp(w.arch, action, items[i], ip1) == ip1
        {
          SpreadMove(w, items, builds, action, i, ip1);
          SpreadNear(w, items, builds, pos, i, ip1);
        }
      }
    }
  }

  lemma SpreadTables(w: World, items: seq<HookEntry>, builds: seq<Build>)
    requires Spread(w, items, builds)
    ensures AllTablesOk(items)
  {
    hide EntryOk;
  }

  // ---------- No thread in overwritten code ----------

  /** Hook e is about to be enabled by the action. */
  predicate ToBeEnabled(action: Action, e: HookEntry) {
    !e.isEnabled && Enabling(action, e)
  }

  /** A suspended thread inside the window of a hook about to be enabled stands at one of its instruction boundaries. */
  ghost predicate AtBoundaries(items: seq<HookEntry>, lo: nat, hi: nat, action: Action, ip: nat)
    requires lo <= hi <= |items| && AllTablesOk(items)
  {
    forall i :: lo <= i < hi && ToBeEnabled(action, items[i]) && InWindow(items[i], ip) ==>
      exists k :: OldBoundary(items[i], ip, k)
  }

  lemma BoundaryMoves(w: World, action: Action, e: HookEntry, b: Build, ip: nat)
    requires DecoderSane(w.arch, w.decode) && EntryOk(w, e, b) && TablesOk(e)
    requires ToBeEnabled(action, e) && exists k :: OldBoundary(e, ip, k)
    ensures MoveIp(w.arch, action, e, ip) != ip
  {
    Bounds(w, e, b);
    NewIpExact(w, e, b, ip);
    hide EntryOk, DecoderSane, NewIp;
    var k :| OldBoundary(e, ip, k);
    assert NewBoundary(e, NewIp(e, ip), k);
  }

  lemma SlotNotWindow(w: World, e: HookEntry, b: Build, f: HookEntry, c: Build, x: int)
    requires DecoderSane(w.arch, w.decode) && EntryOk(w, e, b) && EntryOk(w, f, c)
    ensures InSlotOf(w.arch, e, x) ==> !InWindow(f, x)
    ensures InWindow(f, x) ==> InRegion(f, x)
  {
    NearCode(w, e, b, x);
    NearCode(w, f, c, x);
    hide EntryOk, DecoderSane, InSlotOf;
  }

  /**
   After the Freeze of an enabling operation no thread is inside any patch window about to be
   written, provided threads stand at instruction boundaries and hooks have disjoint regions.
   */
  lemma NoThreadInWindow(w: World, items: seq<HookEntry>, builds: seq<Build>, lo: nat, hi: nat, action: Action, ip: nat,
                         i: nat)
    requires DecoderSane(w.arch, w.decode) && Spread(w, items, builds) && lo <= hi <= |items| && AllTablesOk(items)
    requires AtBoundaries(items, lo, hi, action, ip)
    requires lo <= i < hi && ToBeEnabled(action, items[i])
    ensures !InWindow(items[i], MoveThrough(w.arch, items, lo, hi, action, ip))
  {
    hide EntryOk, DecoderSane, MoveIp, MoveThrough, InWindow, InSlotOf, InRegion;
    MovedOnce(w, items, builds, lo, hi, action, ip);
    var r := MoveThrough(w.arch, items, lo, hi, action, ip);
    if r == ip {
      if InWindow(items[i], ip) {
        BoundaryMoves(w, action, items[i], builds[i], ip);
      }
    } else {
      var j :| lo <= j < hi && r == MoveIp(w.arch, action, items[j], ip) && r != ip;
      SpreadMove(w, items, builds, action, j, ip);
      SlotNotWindow(w, items[j], builds[j], items[i], builds[i], r);
      if j != i {
        SpreadNear(w, items, builds, j, i, r);
      }
    }
  }

  /**
   After MH_RemoveHook has frozen the threads, one that was inside the hook's slot is outside it
   exactly when the hook was enabled and the thread stood at a recorded boundary of the trampoline
   or, on x64, at the start of the relay. For a hook that is already disabled nobody is moved.
   */
  lemma NoThreadInSlot(w: World, e: HookEntry, b: Build, ip: nat)
    requires DecoderSane(w.arch, w.decode) && EntryOk(w, e, b) && TablesOk(e)
    requires InSlotOf(w.arch, e, ip)
    ensures !InSlotOf(w.arch, e, MoveIp(w.arch, ACTION_DISABLE, e, ip)) <==>
              e.isEnabled && ((exists k :: NewBoundary(e, ip, k)) || (w.arch == X64 && ip == e.pDetour))
  {
    Bounds(w, e, b);
    OldIpExact(w, e, b, ip);
    hide EntryOk, DecoderSane, OldIp, OnCell;
    if k :| NewBoundary(e, ip, k) {
      assert OldBoundary(e, OldIp(w.arch, e, ip), k);
    }
  }

  // ---------- Disabling many hooks ----------

  /** A thread near hook i is moved by hook i or not at all. */
  lemma MovedByItsHook(w: World, items: seq<HookEntry>, builds: seq<Build>, pos: nat, count: nat, action: Action,
                       ip: nat, i: nat)
    requires DecoderSane(w.arch, w.decode) && Spread(w, items, builds) && AllTablesOk(items)
    requires pos <= i < count <= |items| && Near(w.arch, items[i], ip)
    ensures MoveThrough(w.arch, items, pos, count, action, ip) == MoveIp(w.arch, action, items[i], ip)
  {
    hide EntryOk, DecoderSane, MoveIp, MoveThrough, Near, TablesOk;
    MovedOnce(w, items, builds, pos, count, action, ip);
    var r := MoveThrough(w.arch, items, pos, count, action, ip);
    if r != ip {
      var j :| pos <= j < count && r == MoveIp(w.arch, action, items[j], ip) && r != ip;
      SpreadMove(w, items, builds, action, j, ip);
      if j != i {
        SpreadNear(w, items, builds, j, i, ip);
      }
    }
  }

  /**
   After the Freeze of MH_Uninitialize a thread that was inside the slot of hook i is outside it
   exactly when the hook was enabled and the thread stood at a recorded boundary or at the relay.
   */
  lemma NoThreadInSlots(w: World, items: seq<HookEntry>, builds: seq<Build>, ip: nat, i: nat)
    requires DecoderSane(w.arch, w.decode) && Spread(w, items, builds) && AllTablesOk(items)
    requires i < |items| && InSlotOf(w.arch, items[i], ip)
    ensures var e := items[i];
            !InSlotOf(w.arch, e, MoveThrough(w.arch, items, 0, |items|, ACTION_DISABLE, ip)) <==>
              e.isEnabled && ((exists k :: NewBoundary(e, ip, k)) || (w.arch == X64 && ip == e.pDetour))
  {
    hide EntryOk, DecoderSane, MoveIp, MoveThrough, InSlotOf, TablesOk, NewBoundary;
    MovedByItsHook(w, items, builds, 0, |items|, ACTION_DISABLE, ip, i);
    NoThreadInSlot(w, items[i], builds[i], ip);
  }

  predicate ToBeDisabled(action: Action, e: HookEntry) {
    e.isEnabled && !Enabling(action, e)
  }

  /** A thread inside the window of a hook about to be disabled stands at one of the jumps of the patch. */
  ghost predicate AtPatches(items: seq<HookEntry>, lo: nat, hi: nat, action: Action, ip: nat)
    requires lo <= hi <= |items|
  {
    forall i :: lo <= i < hi && ToBeDisabled(action, items[i]) && InWindow(items[i], ip) ==>
      ip == PatchAddr(items[i]) || ip == items[i].pTarget
  }

  lemma FirstBoundary(w: World, e: HookEntry, b: Build)
    requires DecoderSane(w.arch, w.decode) && EntryOk(w, e, b)
    ensures TablesOk(e) && OldBoundary(e, e.pTarget, 0)
  {
    EntryTables(w, e, b);
    LayoutIsShaped(w.arch, w.decode, b.seen, e.pTarget, e.pTrampoline, b.cs);
    hide DecoderSane, DetourOk, PatchOk, LengthOk, Apart, TargetOk, CopyOk, Ends, BranchesKeepDistance, OnCell;
  }

  /** A thread at a jump of the patch is sent to the target. */
  lemma PatchLeft(w: World, action: Action, e: HookEntry, b: Build, ip: nat)
    requires DecoderSane(w.arch, w.decode) && EntryOk(w, e, b) && TablesOk(e) && ToBeDisabled(action, e)
    requires ip == PatchAddr(e) || ip == e.pTarget
    ensures MoveIp(w.arch, action, e, ip) == e.pTarget
  {
    Bounds(w, e, b);
    OldIpExact(w, e, b, ip);
    hide EntryOk, DecoderSane, OnCell, Apart;
  }

  /** Where a thread that a disabled hook moves goes on: a boundary of the original code. */
  lemma MovedToBoundary(w: World, action: Action, e: HookEntry, b: Build, ip: nat)
    requires DecoderSane(w.arch, w.decode) && EntryOk(w, e, b) && TablesOk(e)
    requires !Enabling(action, e) && MoveIp(w.arch, action, e, ip) != ip
    ensures exists k :: OldBoundary(e, MoveIp(w.arch, action, e, ip), k)
  {
    FirstBoundary(w, e, b);
    OldIpExact(w, e, b, ip);
    hide EntryOk, DecoderSane, OldIp, OldBoundary;
    if k :| NewBoundary(e, ip, k) {
      assert OldBoundary(e, OldIp(w.arch, e, ip), k);
    }
  }

  /**
   After the Freeze of a disabling operation a thread inside a window about to be restored stands at
   an instruction boundary of the original code; one that was inside the window before stands at
   the target itself.
   */
  lemma ThreadsInRestoredWindow(w: World, items: seq<HookEntry>, builds: seq<Build>, lo: nat, hi: nat, action: Action,
                                ip: nat, i: nat)
    requires DecoderSane(w.arch, w.decode) && Spread(w, items, builds) && lo <= hi <= |items| && AllTablesOk(items)
    requires AtPatches(items, lo, hi, action, ip)
    requires lo <= i < hi && ToBeDisabled(action, items[i])
    ensures var e, r := items[i], MoveThrough(w.arch, items, lo, hi, action, ip);
            && (InWindow(e, ip) ==> r == e.pTarget)
            && (InWindow(e, r) ==> exists k :: OldBoundary(e, r, k))
  {
    hide EntryOk, DecoderSane, MoveIp, MoveThrough, InWindow, TablesOk, OldBoundary, NewBoundary;
    var e, b, r := items[i], builds[i], MoveThrough(w.arch, items, lo, hi, action, ip);
    FirstBoundary(w, e, b);
    WindowIsNear(w, e, b, ip);
    if InWindow(e, ip) {
      MovedByItsHook(w, items, builds, lo, hi, action, ip, i);
      PatchLeft(w, action, e, b, ip);
    } else if InWindow(e, r) {
      MovedOnce(w, items, builds, lo, hi, action, ip);
      var j :| lo <= j < hi && r == MoveIp(w.arch, action, items[j], ip) && r != ip;
      SpreadMove(w, items, builds, action, j, ip);
      WindowIsNear(w, e, b, r);
      if j == i {
        MovedToBoundary(w, action, e, b, ip);
      } else {
        SpreadNear(w, items, builds, j, i, r);
      }
    }
  }

  lemma WindowIsNear(w: World, e: HookEntry, b: Build, x: int)
    requires DecoderSane(w.arch, w.decode) && EntryOk(w, e, b)
    ensures InWindow(e, x) ==> Near(w.arch, e, x)
  {
    SlotNotWindow(w, e, b, e, b, x);
    hide EntryOk, DecoderSane, InWindow, InRegion;
  }

  // ---------- Threads when a patch stays ----------

  /** An instruction of the patch begins at r, or r is outside it. */
  predicate Stands(e: HookEntry, r: int) {
    InWindow(e, r) ==> r == PatchAddr(e) || r == e.pTarget
  }

  /** A boundary of the trampoline, other than its first, whose original lies under the patch. */
  predicate Covered(e: HookEntry, ip: nat, k: nat)
    requires TablesOk(e)
  {
    0 < k && NewBoundary(e, ip, k) && InWindow(e, e.pTarget + e.oldIPs[k])
  }

  lemma CoveredMoves(w: World, action: Action, e: HookEntry, b: Build, ip: nat, k: nat)
    requires DecoderSane(w.arch, w.decode) && EntryOk(w, e, b) && TablesOk(e)
    requires ToBeDisabled(action, e) && Covered(e, ip, k)
    ensures InSlotOf(w.arch, e, ip) && !Stands(e, MoveIp(w.arch, action, e, ip))
  {
    Bounds(w, e, b);
    OldIpExact(w, e, b, ip);
    TablesIncrease(w, e, b, 0, k);
    hide EntryOk, DecoderSane, OldIp, OnCell, Apart;
    assert OldBoundary(e, OldIp(w.arch, e, ip), k);
  }

  /** A hook that sends a thread into the middle of its own patch found it at such a boundary. */
  lemma CoveredFound(w: World, action: Action, e: HookEntry, b: Build, ip: nat)
    requires DecoderSane(w.arch, w.decode) && EntryOk(w, e, b) && TablesOk(e) && ToBeDisabled(action, e)
    requires var r := MoveIp(w.arch, action, e, ip); r != ip && !Stands(e, r)
    ensures exists k :: Covered(e, ip, k)
  {
    FirstBoundary(w, e, b);
    OldIpExact(w, e, b, ip);
    hide EntryOk, DecoderSane, OldIp;
    var k :| NewBoundary(e, ip, k);
    assert OldBoundary(e, OldIp(w.arch, e, ip), k);
    assert Covered(e, ip, k);
  }

  /**
   A disabling operation moves threads before it knows whether it can restore the windows. If the patch of
   hook i stays, a thread stands at an instruction unless it was in the trampoline at a boundary
   whose original is under the patch; such a thread is sent into the middle of the patch.
   */
  lemma StandsExactly(w: World, items: seq<HookEntry>, builds: seq<Build>, lo: nat, hi: nat, action: Action, ip: nat,
                      i: nat)
    requires DecoderSane(w.arch, w.decode) && Spread(w, items, builds) && lo <= hi <= |items| && AllTablesOk(items)
    requires AtPatches(items, lo, hi, action, ip)
    requires lo <= i < hi && ToBeDisabled(action, items[i])
    ensures Stands(items[i], MoveThrough(w.arch, items, lo, hi, action, ip)) <==> !exists k :: Covered(items[i], ip, k)
  {
    hide EntryOk, DecoderSane, MoveIp, MoveThrough, InWindow, TablesOk, NewBoundary, Near, Spread, Covered;
    SpreadEntry(w, items, builds, i);
    var e, b, r := items[i], builds[i], MoveThrough(w.arch, items, lo, hi, action, ip);
    if k :| Covered(e, ip, k) {
      CoveredMoves(w, action, e, b, ip, k);
      SlotIsNear(w.arch, e, ip);
      MovedByItsHook(w, items, builds, lo, hi, action, ip, i);
    } else if !Stands(e, r) {
      ThreadsInRestoredWindow(w, items, builds, lo, hi, action, ip, i);
      MovedByOne(w, items, builds, lo, hi, action, ip, i);
      CoveredFound(w, action, e, b, ip);
    }
  }

  lemma SpreadEntry(w: World, items: seq<HookEntry>, builds: seq<Build>, i: nat)
    requires Spread(w, items, builds) && i < |items|
    ensures |builds| == |items| && EntryOk(w, items[i], builds[i])
  {
    hide EntryOk, DisjointRegions, AllTablesOk;
  }

  lemma SlotIsNear(arch: Arch, e: HookEntry, x: int)
    requires InSlotOf(arch, e, x)
    ensures Near(arch, e, x)
  {
  }

  /** A thread that ends in the window of hook i without having been there was moved by hook i. */
  lemma MovedByOne(w: World, items: seq<HookEntry>, builds: seq<Build>, lo: nat, hi: nat, action: Action, ip: nat,
                   i: nat)
    requires DecoderSane(w.arch, w.decode) && Spread(w, items, builds) && lo <= hi <= |items| && AllTablesOk(items)
    requires lo <= i < hi && !InWindow(items[i], ip)
    requires InWindow(items[i], MoveThrough(w.arch, items, lo, hi, action, ip))
    ensures MoveThrough(w.arch, items, lo, hi, action, ip) == MoveIp(w.arch, action, items[i], ip) != ip
  {
    hide EntryOk, DecoderSane, MoveIp, MoveThrough, InWindow, TablesOk;
    var r := MoveThrough(w.arch, items, lo, hi, action, ip);
    MovedOnce(w, items, builds, lo, hi, action, ip);
    var j :| lo <= j < hi && r == MoveIp(w.arch, action, items[j], ip) && r != ip;
    SpreadMove(w, items, builds, action, j, ip);
    WindowIsNear(w, items[i], builds[i], r);
    if j != i {
      SpreadNear(w, items, builds, j, i, r);
    }
  }
}
