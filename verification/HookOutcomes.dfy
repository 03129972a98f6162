/** hook.c: what the API calls return and when, in terms of the table, the flags and the answers of the system. */
module HookOutcomes {
  import opened Bytes
  import opened HookSpec
  import opened Hook

  // ---------- MH_CreateHook ----------

  /** The statuses of MH_CreateHook come in this order; whatever fails leaves the hooks as they were. */
  lemma CreateOutcome(w: World, s: HookState, target: nat, detour: nat, status: Status, s': HookState)
    requires ApiStep(w, s, CreateHook(target, detour), status, s')
    ensures status == ERROR_NOT_INITIALIZED <==> !s.ready
    ensures status == ERROR_NOT_EXECUTABLE <==> s.ready && !(w.executable(target) && w.executable(detour))
    ensures status == ERROR_ALREADY_CREATED <==>
              && s.ready && w.executable(target) && w.executable(detour)
              && exists i :: 0 <= i < |s.items| && s.items[i].pTarget == target
    ensures status in {OK, ERROR_NOT_INITIALIZED, ERROR_NOT_EXECUTABLE, ERROR_ALREADY_CREATED,
                       ERROR_UNSUPPORTED_FUNCTION, ERROR_MEMORY_ALLOC}
    ensures status != OK ==>
              s'.ready == s.ready && s'.hasItems == s.hasItems && s'.items == s.items && s'.live == s.live
    ensures status == OK ==>
              && |s'.items| == |s.items| + 1 && s'.items[..|s.items|] == s.items
              && s'.capacity == (if !s.hasItems then 32 else if |s.items| >= s.capacity then 2 * s.capacity
                                 else s.capacity)
              && var e := s'.items[|s.items|];
                 && e.pTarget == target && !e.isEnabled && !e.queueEnable
                 && e.pTrampoline !in s.live && s'.live == s.live + iset{e.pTrampoline}
  {
    hide EntryOk, SlotOk, HeapOnly, Unhookable, Read;
  }

  // ---------- Enabling and disabling ----------

  /** The window of this hook can be made writable. */
  predicate CanWrite(protect: int -> bool, e: HookEntry) {
    protect(if e.patchAbove then e.pTarget - 5 else e.pTarget)
  }

  /** What a hook gets: the state asked for, or the one that is queued for it. */
  function WantedState(g: Goal, e: HookEntry): bool {
    match g
    case All(enable) => enable
    case Queued => e.queueEnable
  }

  /** The hooks up to i that are not as wanted can all be written. */
  ghost predicate UpTo(protect: int -> bool, items: seq<HookEntry>, g: Goal, i: int) {
    forall j :: 0 <= j <= i && j < |items| && items[j].isEnabled != WantedState(g, items[j]) ==>
      CanWrite(protect, items[j])
  }

  lemma RefusedMeans(protect: int -> bool, g: Goal, items: seq<HookEntry>, j: nat)
    requires j < |items|
    ensures Refused(protect, g, items, j) <==>
            items[j].isEnabled != WantedState(g, items[j]) && !CanWrite(protect, items[j])
  {
  }

  lemma WritableMeans(protect: int -> bool, g: Goal, items: seq<HookEntry>, k: nat)
    requires k <= |items|
    ensures Writable(protect, g, items, k) <==> UpTo(protect, items, g, k - 1)
  {
    forall j | 0 <= j < k
      ensures Refused(protect, g, items, j) <==>
              items[j].isEnabled != WantedState(g, items[j]) && !CanWrite(protect, items[j])
    {
      RefusedMeans(protect, g, items, j);
    }
    hide Refused, CanWrite, WantedState;
  }

  /**
   A bulk switch succeeds exactly when the window of every hook that has not the state it should get can be written;
   a hook gets its state exactly when that holds of the hooks up to and including it.
   */
  lemma BulkMeans(protect: int -> bool, g: Goal, items: seq<HookEntry>, status: Status, items': seq<HookEntry>)
    requires BulkOutcome(protect, g, items, status, items')
    ensures status == OK <==>
              forall i :: 0 <= i < |items| && items[i].isEnabled != WantedState(g, items[i]) ==>
                CanWrite(protect, items[i])
    ensures |items'| == |items|
    ensures forall i :: 0 <= i < |items| ==>
              && items'[i].pTarget == items[i].pTarget
              && (items'[i].isEnabled == WantedState(g, items[i]) <==>
                    items[i].isEnabled == WantedState(g, items[i]) || UpTo(protect, items, g, i))
  {
    WritableMeans(protect, g, items, |items|);
    forall i | 0 <= i < |items|
      ensures items'[i].pTarget == items[i].pTarget
      ensures items'[i].isEnabled == WantedState(g, items[i]) <==>
              items[i].isEnabled == WantedState(g, items[i]) || UpTo(protect, items, g, i)
    {
      WritableMeans(protect, g, items, i + 1);
      hide Writable, CanWrite, UpTo;
    }
    hide Writable, CanWrite;
  }

  /** A single hook: its status tells which of the five cases it was, and only success changes the table. */
  lemma SingleMeans(protect: int -> bool, ready: bool, items: seq<HookEntry>, target: nat, enable: bool,
                    status: Status, items': seq<HookEntry>, i: nat)
    requires EnableOutcome(protect, ready, items, target, enable, status, items') && target != 0
    requires i < |items| && items[i].pTarget == target && forall j :: 0 <= j < i ==> items[j].pTarget != target
    ensures status == if !ready then ERROR_NOT_INITIALIZED
                      else if items[i].isEnabled && enable then ERROR_ENABLED
                      else if !items[i].isEnabled && !enable then ERROR_DISABLED
                      else if !CanWrite(protect, items[i]) then ERROR_MEMORY_PROTECT
                      else OK
    ensures ready && items[i].isEnabled != enable ==>
              items' == if status == OK then items[i := items[i].(isEnabled := enable, queueEnable := enable)]
                else items
  {
    assert FindFrom(items, target, 0) == i;
  }

  // ---------- The capacity of the table ----------

  /** 32, doubled n times. */
  function Capacity(n: nat): (r: nat)
    ensures r >= 32
  {
    if n == 0 then 32 else 2 * Capacity(n - 1)
  }

  /** The capacities that occur are 32, 64, 128, ... */
  lemma {:induction false} CapacityMeans(c: nat)
    ensures IsCapacity(c) <==> exists n: nat :: c == Capacity(n)
  {
    if c <= 32 {
      SmallCapacity(c);
    } else {
      CapacityMeans(c / 2);
      if IsCapacity(c) {
        var n: nat :| c / 2 == Capacity(n);
        CapacityNext(n);
        assert c == Capacity(n + 1);
      }
      forall n: nat | c == Capacity(n)
        ensures IsCapacity(c)
      {
        if n > 0 {
          CapacityNext(n - 1);
        }
      }
    }
  }

  lemma CapacityNext(n: nat)
    ensures Capacity(n + 1) == 2 * Capacity(n) && Capacity(n) >= 32 && Capacity(0) == 32
  {
  }

  lemma SmallCapacity(c: nat)
    requires c <= 32
    ensures IsCapacity(c) <==> exists n: nat :: c == Capacity(n)
  {
    assert IsCapacity(c) <==> c == 32;
    CapacityNext(0);
    forall n: nat
      ensures Capacity(n) >= 32
    {
      CapacityNext(n);
    }
    if c == 32 {
      assert c == Capacity(0);
    }
  }

  /** A removed hook halves the capacity at most, and only down to 32 and to what the remaining hooks need. */
  lemma RemoveCapacity(w: World, s: HookState, target: nat, status: Status, s': HookState)
    requires ApiStep(w, s, RemoveHook(target), status, s')
    ensures s'.capacity != s.capacity ==>
              && status == OK && s'.capacity == s.capacity / 2
              && s'.capacity >= 32 && |s'.items| <= s'.capacity && |s'.items| == |s.items| - 1
  {
    hide HeapOnly, Write;
  }
}
