/**
 hook.c: where the API calls leave the other threads of the process. What happens between Freeze and
 Unfreeze carries over to the whole call, because Unfreeze moves nobody.
 */
module ThreadTheorems {
  import opened Bytes
  import opened Cpu
  import opened ProcessState
  import opened TrampolineSpec
  import opened TrampolineBuilder
  import opened Buffer
  import opened SlotHeap
  import opened HookSpec
  import opened HookRuns
  import opened ThreadSpec
  import opened FrozenThreads
  import opened HookTheorems

  /** The call finds thread t, opens it, and can read and write its context. */
  ghost predicate Reaches(sys: Threading, t: int) {
    Reached(sys, Found(sys), t)
  }

  /**
   After MH_ApplyQueued, or a call that enables hooks, no reached thread is inside a window of a hook to be
   enabled.
   */
  lemma CallClear(w: World, s: HookState, lo: nat, hi: nat, action: Action, sys: Threading, before: map<int, Thread>,
                  after: map<int, Thread>, t: int, i: nat)
    requires DecoderSane(w.arch, w.decode) && Inv(w, s) && DisjointRegions(s.items)
    requires lo <= hi <= |s.items| && AllTablesOk(s.items)
    requires Handled(w.arch, s.items, lo, hi, action, sys, true, before, after)
    requires Reaches(sys, t) && t in before && AtBoundaries(s.items, lo, hi, action, before[t].ip)
    requires lo <= i < hi && ToBeEnabled(action, s.items[i])
    ensures t in after && !InWindow(s.items[i], after[t].ip)
  {
    hide Inv, DecoderSane, Handled, FrozenAll, TablesOk, InWindow, AtBoundaries, DisjointRegions, Found, Reached;
    var frozen := FrozenBetween(w.arch, s.items, lo, hi, action, sys, before, after);
    FrozenClear(w, s, lo, hi, action, sys, Found(sys), before, frozen, t, i);
  }

  lemma EnabledSwitches(items: seq<HookEntry>, i: nat)
    requires i < |items| && !items[i].isEnabled
    ensures SomethingToSwitch(All(true), items)
  {
    assert NeedsSwitch(All(true), items[i]);
  }

  /**
   MH_EnableHook, for one hook or for all: no reached thread is inside the window of a hook that was to be
   enabled.
   */
  lemma EnableCallClear(w: World, s: HookState, target: nat, sys: Threading, before: map<int, Thread>,
                        after: map<int, Thread>, t: int, i: nat)
    requires DecoderSane(w.arch, w.decode) && Inv(w, s) && DisjointRegions(s.items) && AllTablesOk(s.items)
    requires EnableMoves(w.arch, s.items, target, true, sys, before, after)
    requires i < |s.items| && !s.items[i].isEnabled && (target == ALL_HOOKS || i == FindFrom(s.items, target, 0))
    requires Reaches(sys, t) && t in before && AtBoundaries(s.items, 0, |s.items|, ACTION_ENABLE, before[t].ip)
    ensures t in after && !InWindow(s.items[i], after[t].ip)
  {
    hide Inv, DecoderSane, Handled, TablesOk, InWindow, DisjointRegions, Found, Reached, OldBoundary;
    EnabledSwitches(s.items, i);
    if target == ALL_HOOKS {
      CallClear(w, s, 0, |s.items|, ACTION_ENABLE, sys, before, after, t, i);
    } else {
      CallClear(w, s, i, i + 1, ACTION_ENABLE, sys, before, after, t, i);
    }
  }

  /** A call that has nothing to switch leaves all threads alone. */
  lemma NobodyMoved(arch: Arch, items: seq<HookEntry>, lo: nat, hi: nat, action: Action, sys: Threading,
                    before: map<int, Thread>, after: map<int, Thread>)
    requires lo <= hi <= |items| && AllTablesOk(items)
    requires Handled(arch, items, lo, hi, action, sys, false, before, after)
    ensures after == before
  {
    hide Thawed, AllTablesOk;
    assert forall t :: t in after <==> t in before;
    assert forall t :: t in before ==> after[t] == before[t];
  }

  /**
   MH_RemoveHook frees the slot next: a reached thread that was inside it is outside exactly when the hook was
   enabled and the thread stood at a recorded boundary or at the relay.
   */
  lemma RemoveCallOutOfSlot(w: World, s: HookState, pos: nat, sys: Threading, before: map<int, Thread>,
                            after: map<int, Thread>, t: int)
    requires DecoderSane(w.arch, w.decode) && Inv(w, s) && pos < |s.items| && AllTablesOk(s.items)
    requires Handled(w.arch, s.items, pos, pos + 1, ACTION_DISABLE, sys, s.items[pos].isEnabled, before, after)
    requires Reaches(sys, t) && t in before && InSlotOf(w.arch, s.items[pos], before[t].ip)
    ensures t in after
    ensures var e, ip := s.items[pos], before[t].ip;
            !InSlotOf(w.arch, e, after[t].ip) <==>
              e.isEnabled && ((exists k :: NewBoundary(e, ip, k)) || (w.arch == X64 && ip == e.pDetour))
  {
    hide Inv, DecoderSane, Handled, FrozenAll, TablesOk, InSlotOf, NewBoundary, Found, Reached, EntryOk, SlotOk, MoveIp,
         PatchBytes, Read;
    EntryFacts(w, s, pos);
    var e, ip := s.items[pos], before[t].ip;
    if e.isEnabled {
      var frozen := FrozenBetween(w.arch, s.items, pos, pos + 1, ACTION_DISABLE, sys, before, after);
      ReachedMoves(w.arch, s.items, pos, pos + 1, ACTION_DISABLE, sys, Found(sys), before, frozen, t);
      OneMove(w.arch, s.items, pos, ACTION_DISABLE, ip);
      NoThreadInSlot(w, e, s.builds[pos], ip);
    } else {
      NobodyMoved(w.arch, s.items, pos, pos + 1, ACTION_DISABLE, sys, before, after);
    }
  }

  lemma OneMove(arch: Arch, items: seq<HookEntry>, pos: nat, action: Action, ip: nat)
    requires pos < |items| && AllTablesOk(items)
    ensures MoveThrough(arch, items, pos, pos + 1, action, ip) == MoveIp(arch, action, items[pos], ip)
  {
    hide MoveIp, TablesOk;
    assert MoveThrough(arch, items, pos + 1, pos + 1, action, MoveIp(arch, action, items[pos], ip))
        == MoveIp(arch, action, items[pos], ip);
  }

  /** MH_Uninitialize frees the slots of all hooks next: the same for every one of them. */
  lemma UninitializeCallOutOfSlots(w: World, s: HookState, sys: Threading, before: map<int, Thread>,
                                   after: map<int, Thread>, t: int, i: nat)
    requires DecoderSane(w.arch, w.decode) && Inv(w, s) && DisjointRegions(s.items) && AllTablesOk(s.items)
    requires Handled(w.arch, s.items, 0, |s.items|, ACTION_DISABLE, sys, SomethingToSwitch(All(false), s.items),
                     before, after)
    requires Reaches(sys, t) && t in before && i < |s.items| && InSlotOf(w.arch, s.items[i], before[t].ip)
    ensures t in after
    ensures var e, ip := s.items[i], before[t].ip;
            !InSlotOf(w.arch, e, after[t].ip) <==>
              e.isEnabled && ((exists k :: NewBoundary(e, ip, k)) || (w.arch == X64 && ip == e.pDetour))
  {
    hide Inv, DecoderSane, Handled, FrozenAll, TablesOk, InSlotOf, NewBoundary, Found, Reached, DisjointRegions;
    if SomethingToSwitch(All(false), s.items) {
      var frozen := FrozenBetween(w.arch, s.items, 0, |s.items|, ACTION_DISABLE, sys, before, after);
      FrozenOutOfSlots(w, s, sys, Found(sys), before, frozen, t, i);
    } else {
      NobodyMoved(w.arch, s.items, 0, |s.items|, ACTION_DISABLE, sys, before, after);
      assert !NeedsSwitch(All(false), s.items[i]);
    }
  }

  /**
   A disabling call that ends in ERROR_MEMORY_PROTECT: in a hook whose patch stays, a reached thread resumes
   at an instruction unless it was in the trampoline at a boundary, other than the first, whose original
   is under the patch. Those threads resume in the middle of the jump.
   */
  lemma RefusedCallStands(w: World, s: HookState, lo: nat, hi: nat, action: Action, sys: Threading,
                          before: map<int, Thread>, after: map<int, Thread>, t: int, i: nat)
    requires DecoderSane(w.arch, w.decode) && Inv(w, s) && DisjointRegions(s.items)
    requires lo <= hi <= |s.items| && AllTablesOk(s.items)
    requires Handled(w.arch, s.items, lo, hi, action, sys, true, before, after)
    requires Reaches(sys, t) && t in before && AtPatches(s.items, lo, hi, action, before[t].ip)
    requires lo <= i < hi && ToBeDisabled(action, s.items[i])
    ensures t in after && (Stands(s.items[i], after[t].ip) <==> !exists k :: Covered(s.items[i], before[t].ip, k))
  {
    hide Inv, DecoderSane, Handled, FrozenAll, TablesOk, Stands, Covered, AtPatches, DisjointRegions, Found, Reached,
         MoveThrough, Spread;
    InvSpread(w, s);
    var frozen := FrozenBetween(w.arch, s.items, lo, hi, action, sys, before, after);
    ReachedMoves(w.arch, s.items, lo, hi, action, sys, Found(sys), before, frozen, t);
    StandsExactly(w, s.items, s.builds, lo, hi, action, before[t].ip, i);
  }

  // ---------- The moves of each call, in terms of the flags of a hook ----------

  /** A thread at a copied boundary of the target goes on at its copy. */
  ghost predicate GoesToCopy(e: HookEntry, ip: nat, r: nat)
    requires TablesOk(e)
  {
    forall k: nat :: k < e.nIP && ip == e.pTarget + e.oldIPs[k] ==> r == e.pTrampoline + e.newIPs[k]
  }

  /**
   A thread at a boundary of the trampoline goes on at its original, one at the relay or at a jump of the patch
   at the target.
   */
  ghost predicate GoesToOriginal(arch: Arch, e: HookEntry, ip: nat, r: nat)
    requires TablesOk(e)
  {
    && (forall k: nat :: k < e.nIP && ip == e.pTrampoline + e.newIPs[k] ==> r == e.pTarget + e.oldIPs[k])
    && (ip == e.pTarget || ip == PatchAddr(e) || (arch == X64 && ip == e.pDetour) ==> r == e.pTarget)
  }

  lemma GoesMeans(w: World, action: Action, e: HookEntry, b: Build, ip: nat)
    requires DecoderSane(w.arch, w.decode) && EntryOk(w, e, b) && TablesOk(e)
    ensures var r := MoveIp(w.arch, action, e, ip);
            && (e.isEnabled == Enabling(action, e) ==> r == ip)
            && (!e.isEnabled && Enabling(action, e) ==> GoesToCopy(e, ip, r))
            && (e.isEnabled && !Enabling(action, e) ==> GoesToOriginal(w.arch, e, ip, r))
  {
    hide EntryOk, DecoderSane, NewIp, OldIp, Enabling;
    if !e.isEnabled && Enabling(action, e) {
      IntoTrampoline(w, e, b, ip);
    } else if e.isEnabled && !Enabling(action, e) {
      OutOfTrampoline(w, e, b, ip);
      if ip == e.pTarget || ip == PatchAddr(e) {
        PatchLeft(w, action, e, b, ip);
      }
      if w.arch == X64 && ip == e.pDetour {
        RelayLeft(w, e, b);
      }
    }
  }

  /** A bulk operation moves a reached thread near hook i as that hook's tables say. */
  lemma BulkMove(w: World, s: HookState, action: Action, sys: Threading, froze: bool, before: map<int, Thread>,
                 after: map<int, Thread>, t: int, i: nat)
    requires DecoderSane(w.arch, w.decode) && Inv(w, s) && DisjointRegions(s.items) && AllTablesOk(s.items)
    requires Handled(w.arch, s.items, 0, |s.items|, action, sys, froze, before, after)
    requires Reaches(sys, t) && t in before && i < |s.items| && Near(w.arch, s.items[i], before[t].ip)
    requires s.items[i].isEnabled != Enabling(action, s.items[i]) ==> froze
    ensures t in after && after[t].ip == MoveIp(w.arch, action, s.items[i], before[t].ip)
  {
    hide Inv, DecoderSane, Handled, FrozenAll, TablesOk, Found, Reached, DisjointRegions, MoveThrough, Spread, EntryOk,
         SlotOk, Near, PatchBytes, Read, NewIp, OldIp, Enabling;
    if froze {
      InvSpread(w, s);
      var frozen := FrozenBetween(w.arch, s.items, 0, |s.items|, action, sys, before, after);
      ReachedMoves(w.arch, s.items, 0, |s.items|, action, sys, Found(sys), before, frozen, t);
      hide MoveIp;
      MovedByItsHook(w, s.items, s.builds, 0, |s.items|, action, before[t].ip, i);
    } else {
      NobodyMoved(w.arch, s.items, 0, |s.items|, action, sys, before, after);
    }
  }

  /** A call for a single hook moves a reached thread as that hook's tables say, wherever other hooks are. */
  lemma SingleMove(w: World, s: HookState, pos: nat, action: Action, sys: Threading, froze: bool,
                   before: map<int, Thread>, after: map<int, Thread>, t: int)
    requires DecoderSane(w.arch, w.decode) && Inv(w, s) && pos < |s.items| && AllTablesOk(s.items)
    requires Handled(w.arch, s.items, pos, pos + 1, action, sys, froze, before, after)
    requires Reaches(sys, t) && t in before
    requires s.items[pos].isEnabled != Enabling(action, s.items[pos]) ==> froze
    ensures t in after && after[t].ip == MoveIp(w.arch, action, s.items[pos], before[t].ip)
  {
    hide Inv, DecoderSane, Handled, FrozenAll, TablesOk, Found, Reached, MoveThrough, NewIp, OldIp, Enabling;
    if froze {
      var frozen := FrozenBetween(w.arch, s.items, pos, pos + 1, action, sys, before, after);
      ReachedMoves(w.arch, s.items, pos, pos + 1, action, sys, Found(sys), before, frozen, t);
      hide MoveIp;
      OneMove(w.arch, s.items, pos, action, before[t].ip);
    } else {
      NobodyMoved(w.arch, s.items, pos, pos + 1, action, sys, before, after);
    }
  }

  /**
   What MH_ApplyQueued does to a thread near hook i: nothing if the hook has what is queued for it. A hook that is
   queued to be enabled sends the thread to the copies, one that is queued to be disabled back to the originals.
   */
  lemma QueuedMove(w: World, s: HookState, sys: Threading, before: map<int, Thread>, after: map<int, Thread>, t: int,
                   i: nat)
    requires DecoderSane(w.arch, w.decode) && Inv(w, s) && DisjointRegions(s.items) && AllTablesOk(s.items)
    requires Handled(w.arch, s.items, 0, |s.items|, ACTION_APPLY_QUEUED, sys, SomethingToSwitch(Queued, s.items),
                     before, after)
    requires Reaches(sys, t) && t in before && i < |s.items| && Near(w.arch, s.items[i], before[t].ip)
    ensures t in after
    ensures s.items[i].isEnabled == s.items[i].queueEnable ==> after[t].ip == before[t].ip
    ensures !s.items[i].isEnabled && s.items[i].queueEnable ==> GoesToCopy(s.items[i], before[t].ip, after[t].ip)
    ensures s.items[i].isEnabled && !s.items[i].queueEnable ==>
              GoesToOriginal(w.arch, s.items[i], before[t].ip, after[t].ip)
  {
    hide Inv, DecoderSane, Handled, TablesOk, Found, Reached, DisjointRegions, EntryOk, SlotOk, MoveIp, Near,
         PatchBytes, Read, GoesToCopy, GoesToOriginal;
    EntryFacts(w, s, i);
    if s.items[i].isEnabled != s.items[i].queueEnable {
      assert NeedsSwitch(Queued, s.items[i]);
    }
    BulkMove(w, s, ACTION_APPLY_QUEUED, sys, SomethingToSwitch(Queued, s.items), before, after, t, i);
    GoesMeans(w, ACTION_APPLY_QUEUED, s.items[i], s.builds[i], before[t].ip);
  }

  /**
   What MH_EnableHook does to a thread near a hook that it enables, one or all, and what MH_DisableHook does for all
   hooks. MH_DisableHook for a single hook moves nobody, wherever the thread stands.
   */
  lemma EnableCallMove(w: World, s: HookState, target: nat, enable: bool, sys: Threading, before: map<int, Thread>,
                       after: map<int, Thread>, t: int, i: nat)
    requires DecoderSane(w.arch, w.decode) && Inv(w, s) && AllTablesOk(s.items)
    requires EnableMoves(w.arch, s.items, target, enable, sys, before, after)
    requires i < |s.items| && if target == ALL_HOOKS then DisjointRegions(s.items)
             else i == FindFrom(s.items, target, 0)
    requires Reaches(sys, t) && t in before && Near(w.arch, s.items[i], before[t].ip)
    ensures t in after
    ensures s.items[i].isEnabled == enable || (!enable && target != ALL_HOOKS) ==> after[t].ip == before[t].ip
    ensures !s.items[i].isEnabled && enable ==> GoesToCopy(s.items[i], before[t].ip, after[t].ip)
    ensures s.items[i].isEnabled && !enable && target == ALL_HOOKS ==>
              GoesToOriginal(w.arch, s.items[i], before[t].ip, after[t].ip)
  {
    hide Inv, DecoderSane, Handled, TablesOk, Found, Reached, DisjointRegions, EntryOk, SlotOk, MoveIp, Near,
         PatchBytes, Read, GoesToCopy, GoesToOriginal;
    EntryFacts(w, s, i);
    if target == ALL_HOOKS {
      var action := if enable then ACTION_ENABLE else ACTION_DISABLE;
      if s.items[i].isEnabled != enable {
        assert NeedsSwitch(All(enable), s.items[i]);
      }
      BulkMove(w, s, action, sys, SomethingToSwitch(All(enable), s.items), before, after, t, i);
      GoesMeans(w, action, s.items[i], s.builds[i], before[t].ip);
    } else if enable {
      SingleMove(w, s, i, ACTION_ENABLE, sys, s.items[i].isEnabled != enable, before, after, t);
      GoesMeans(w, ACTION_ENABLE, s.items[i], s.builds[i], before[t].ip);
    }
  }

  /** MH_RemoveHook takes a thread out of an enabled hook, and leaves it alone if the hook is disabled. */
  lemma RemoveCallMove(w: World, s: HookState, pos: nat, sys: Threading, before: map<int, Thread>,
                       after: map<int, Thread>, t: int)
    requires DecoderSane(w.arch, w.decode) && Inv(w, s) && pos < |s.items| && AllTablesOk(s.items)
    requires Handled(w.arch, s.items, pos, pos + 1, ACTION_DISABLE, sys, s.items[pos].isEnabled, before, after)
    requires Reaches(sys, t) && t in before
    ensures t in after
    ensures if s.items[pos].isEnabled then GoesToOriginal(w.arch, s.items[pos], before[t].ip, after[t].ip)
            else after[t].ip == before[t].ip
  {
    hide Inv, DecoderSane, Handled, TablesOk, Found, Reached, EntryOk, SlotOk, MoveIp, PatchBytes, Read,
         GoesToOriginal, GoesToCopy;
    EntryFacts(w, s, pos);
    SingleMove(w, s, pos, ACTION_DISABLE, sys, s.items[pos].isEnabled, before, after, t);
    GoesMeans(w, ACTION_DISABLE, s.items[pos], s.builds[pos], before[t].ip);
  }

  /** MH_Uninitialize takes threads out of all enabled hooks. */
  lemma UninitializeCallMove(w: World, s: HookState, sys: Threading, before: map<int, Thread>,
                             after: map<int, Thread>, t: int, i: nat)
    requires DecoderSane(w.arch, w.decode) && Inv(w, s) && DisjointRegions(s.items) && AllTablesOk(s.items)
    requires Handled(w.arch, s.items, 0, |s.items|, ACTION_DISABLE, sys, SomethingToSwitch(All(false), s.items),
                     before, after)
    requires Reaches(sys, t) && t in before && i < |s.items| && Near(w.arch, s.items[i], before[t].ip)
    ensures t in after
    ensures if s.items[i].isEnabled then GoesToOriginal(w.arch, s.items[i], before[t].ip, after[t].ip)
            else after[t].ip == before[t].ip
  {
    hide Inv, DecoderSane, Handled, TablesOk, Found, Reached, DisjointRegions, Near;
    EnableCallMove(w, s, ALL_HOOKS, false, sys, before, after, t, i);
  }

  /** A thread that stands near none of the hooks of a call is not moved. */
  lemma FarStays(w: World, s: HookState, lo: nat, hi: nat, action: Action, sys: Threading, froze: bool,
                 before: map<int, Thread>, after: map<int, Thread>, t: int)
    requires DecoderSane(w.arch, w.decode) && Inv(w, s) && lo <= hi <= |s.items| && AllTablesOk(s.items)
    requires Handled(w.arch, s.items, lo, hi, action, sys, froze, before, after) && t in before
    requires forall i :: lo <= i < hi ==> !Near(w.arch, s.items[i], before[t].ip)
    ensures t in after && after[t].ip == before[t].ip
  {
    hide Inv, DecoderSane, TablesOk, Found, Redirect, StoredIp, EntryOk, SlotOk, PatchBytes, Read, Near;
    FarStored(w, s, lo, hi, action, sys, t, before[t].ip);
  }

  lemma {:induction false} FarStored(w: World, s: HookState, pos: nat, count: nat, action: Action, sys: Threading,
                                    t: int, ip: nat)
    requires DecoderSane(w.arch, w.decode) && Inv(w, s) && pos <= count <= |s.items| && AllTablesOk(s.items)
    requires forall i :: pos <= i < count ==> !Near(w.arch, s.items[i], ip)
    ensures StoredIp(w.arch, s.items, pos, count, action, sys, t, ip, ip) == ip
    decreases count - pos
  {
    hide Inv, DecoderSane, TablesOk, EntryOk, SlotOk, PatchBytes, Read, Near;
    if pos < count {
      FarStored(w, s, pos + 1, count, action, sys, t, ip);
      EntryFacts(w, s, pos);
      FarRedirect(w, action, s.items[pos], s.builds[pos], ip);
    }
  }

  lemma FarRedirect(w: World, action: Action, e: HookEntry, b: Build, ip: nat)
    requires DecoderSane(w.arch, w.decode) && EntryOk(w, e, b) && TablesOk(e) && !Near(w.arch, e, ip)
    ensures Redirect(w.arch, action, e, ip) == 0
  {
    Bounds(w, e, b);
    NewIpExact(w, e, b, ip);
    OldIpExact(w, e, b, ip);
    hide EntryOk, DecoderSane, NewIp, OldIp, OnCell, Apart;
  }

  /** FindNewIP at a copied boundary. */
  lemma IntoTrampoline(w: World, e: HookEntry, b: Build, ip: nat)
    requires DecoderSane(w.arch, w.decode) && EntryOk(w, e, b) && TablesOk(e)
    ensures forall k: nat :: k < e.nIP && ip == e.pTarget + e.oldIPs[k] ==>
              NewIp(e, ip) == e.pTrampoline + e.newIPs[k] && NewIp(e, ip) != 0
  {
    hide EntryOk, DecoderSane, NewIp;
    NewIpExact(w, e, b, ip);
    forall k: nat | k < e.nIP && ip == e.pTarget + e.oldIPs[k]
      ensures NewIp(e, ip) == e.pTrampoline + e.newIPs[k] && NewIp(e, ip) != 0
    {
      assert OldBoundary(e, ip, k) && NewBoundary(e, NewIp(e, ip), k);
    }
  }

  /** FindOldIP at a boundary of the trampoline. */
  lemma OutOfTrampoline(w: World, e: HookEntry, b: Build, ip: nat)
    requires DecoderSane(w.arch, w.decode) && EntryOk(w, e, b) && TablesOk(e)
    ensures forall k: nat :: k < e.nIP && ip == e.pTrampoline + e.newIPs[k] ==>
              OldIp(w.arch, e, ip) == e.pTarget + e.oldIPs[k] && OldIp(w.arch, e, ip) != 0
  {
    hide EntryOk, DecoderSane, OldIp;
    OldIpExact(w, e, b, ip);
    forall k: nat | k < e.nIP && ip == e.pTrampoline + e.newIPs[k]
      ensures OldIp(w.arch, e, ip) == e.pTarget + e.oldIPs[k] && OldIp(w.arch, e, ip) != 0
    {
      assert NewBoundary(e, ip, k) && OldBoundary(e, OldIp(w.arch, e, ip), k);
    }
  }

  /** The relay lies behind all boundaries of the trampoline, and leads to the target. */
  lemma RelayLeft(w: World, e: HookEntry, b: Build)
    requires DecoderSane(w.arch, w.decode) && EntryOk(w, e, b) && TablesOk(e) && w.arch == X64
    ensures OldIp(w.arch, e, e.pDetour) == e.pTarget != 0
  {
    hide EntryOk, DecoderSane, OldIp;
    Bounds(w, e, b);
    OldIpExact(w, e, b, e.pDetour);
    forall k: nat | k < e.nIP
      ensures !NewBoundary(e, e.pDetour, k)
    {
      RelayBehind(w, e, b, k);
    }
  }

  lemma RelayBehind(w: World, e: HookEntry, b: Build, k: nat)
    requires DecoderSane(w.arch, w.decode) && EntryOk(w, e, b) && TablesOk(e) && w.arch == X64 && k < e.nIP
    ensures e.pTrampoline + e.newIPs[k] < e.pDetour
  {
    hide CopyOk, Ends, BranchesKeepDistance, Apart, TargetOk, OnCell, PatchOk, LengthOk, FitsInt32, SlotNear;
    LayoutIsShaped(w.arch, w.decode, b.seen, e.pTarget, e.pTrampoline, b.cs);
    ShapeFits(b.cs);
    hide DecoderSane, Chained;
  }

  /**
   MH_ApplyQueued: a reached thread that stands at an instruction boundary is outside the window of every hook
   that was disabled and queued to be enabled.
   */
  lemma QueuedClear(w: World, s: HookState, sys: Threading, before: map<int, Thread>, after: map<int, Thread>, t: int,
                    i: nat)
    requires DecoderSane(w.arch, w.decode) && Inv(w, s) && DisjointRegions(s.items) && AllTablesOk(s.items)
    requires Handled(w.arch, s.items, 0, |s.items|, ACTION_APPLY_QUEUED, sys, SomethingToSwitch(Queued, s.items),
                     before, after)
    requires Reaches(sys, t) && t in before
    requires forall j ::
               0 <= j < |s.items| && !s.items[j].isEnabled && s.items[j].queueEnable &&
               InWindow(s.items[j], before[t].ip) ==>
                 exists k :: OldBoundary(s.items[j], before[t].ip, k)
    requires i < |s.items| && !s.items[i].isEnabled && s.items[i].queueEnable
    ensures t in after && !InWindow(s.items[i], after[t].ip)
  {
    hide Inv, DecoderSane, Handled, TablesOk, InWindow, DisjointRegions, Found, Reached, OldBoundary;
    assert NeedsSwitch(Queued, s.items[i]);
    CallClear(w, s, 0, |s.items|, ACTION_APPLY_QUEUED, sys, before, after, t, i);
  }

  /**
   MH_ApplyQueued, for a hook that was enabled and queued to be disabled: a reached thread that was in its
   window is at the target. If the patch stays because the call fails, a thread resumes at an instruction of it
   unless it was in the trampoline at a boundary, other than the first, whose original is under the patch.
   */
  lemma QueuedStands(w: World, s: HookState, sys: Threading, before: map<int, Thread>, after: map<int, Thread>, t: int,
                     i: nat)
    requires DecoderSane(w.arch, w.decode) && Inv(w, s) && DisjointRegions(s.items) && AllTablesOk(s.items)
    requires Handled(w.arch, s.items, 0, |s.items|, ACTION_APPLY_QUEUED, sys, SomethingToSwitch(Queued, s.items),
                     before, after)
    requires Reaches(sys, t) && t in before
    requires forall j ::
               0 <= j < |s.items| && s.items[j].isEnabled && !s.items[j].queueEnable &&
               InWindow(s.items[j], before[t].ip) ==>
                 before[t].ip == PatchAddr(s.items[j]) || before[t].ip == s.items[j].pTarget
    requires i < |s.items| && s.items[i].isEnabled && !s.items[i].queueEnable
    ensures t in after
    ensures InWindow(s.items[i], before[t].ip) ==> after[t].ip == s.items[i].pTarget
    ensures InWindow(s.items[i], after[t].ip) ==> exists k :: OldBoundary(s.items[i], after[t].ip, k)
    ensures Stands(s.items[i], after[t].ip) <==> !exists k :: Covered(s.items[i], before[t].ip, k)
  {
    hide Inv, DecoderSane, Handled, FrozenAll, TablesOk, InWindow, DisjointRegions, Found, Reached, OldBoundary, Stands,
         Covered;
    assert NeedsSwitch(Queued, s.items[i]);
    var frozen := FrozenBetween(w.arch, s.items, 0, |s.items|, ACTION_APPLY_QUEUED, sys, before, after);
    FrozenAtBoundary(w, s, 0, |s.items|, ACTION_APPLY_QUEUED, sys, Found(sys), before, frozen, t, i);
    RefusedCallStands(w, s, 0, |s.items|, ACTION_APPLY_QUEUED, sys, before, after, t, i);
  }
}
