/** hook.c: the hook engine. Each method's contract names the step of the state machine it takes. */
module Hook {
  import opened Bytes
  import opened Cpu
  import opened ProcessState
  import opened TrampolineSpec
  import opened TrampolineBuilder
  import opened TrampolineCode
  import opened TrampolineAccept
  import opened Region
  import opened SlotHeap
  import opened Buffer
  import opened HookSpec
  import opened HookRuns
  import opened ThreadSpec
  import opened FrozenThreads

  /** The operating system during one API call. */
  datatype Env = Env(os: Os,
                     heapCreate: bool,       // HeapCreate
                     heapAlloc: bool,        // HeapAlloc or HeapReAlloc of the hook table
                     protect: int -> bool,   // VirtualProtect of the window starting there
                     sys: Threading)

  class HookEngine {
    const proc: Process
    const alloc: SlotAllocator
    const arch: Arch
    const decode: Decoder
    /** The original code bytes. */
    ghost const orig: Mem
    ghost const code: int -> bool

    /** g_isLocked */
    var isLocked: bool
    /** g_hHeap != NULL */
    var ready: bool
    /** g_hooks: pItems != NULL, the entries, and the capacity. */
    var hasItems: bool
    var items: seq<HookEntry>
    var capacity: nat
    /** How each entry's trampoline was built. */
    ghost var builds: seq<Build>

    ghost function W(): World {
      World(arch, decode, orig, code, proc.executable)
    }

    ghost function LiveSet(): iset<nat>
      reads alloc
    {
      iset s: nat | alloc.Live(s)
    }

    ghost function State(): HookState
      reads this, proc, alloc
    {
      HookState(ready, hasItems, capacity, items, builds, LiveSet(), proc.mem)
    }

    /** The parts fit together and the allocator is sound. */
    ghost predicate Linked()
      reads this, proc, alloc
    {
      && alloc.proc == proc && alloc.arch == arch && alloc.code == code
      && DecoderSane(arch, decode)
      && alloc.Valid()
    }

    /** Between API calls: nobody holds the lock and the invariant holds. */
    ghost predicate Valid()
      reads this, proc, alloc
    {
      Linked() && !isLocked && Inv(W(), State())
    }

    constructor (proc: Process, alloc: SlotAllocator, decode: Decoder, ghost orig: Mem)
      requires alloc.proc == proc && alloc.Valid() && alloc.blocks == []
      requires DecoderSane(alloc.arch, decode)
      requires forall x :: alloc.code(x) ==> proc.mem(x) == orig(x)
      ensures this.proc == proc && this.alloc == alloc && this.decode == decode && this.orig == orig
      ensures this.arch == alloc.arch && this.code == alloc.code
      ensures Valid() && Initial(W(), State())
    {
      this.proc, this.alloc, this.arch, this.decode := proc, alloc, alloc.arch, decode;
      this.orig, this.code := orig, alloc.code;
      isLocked, ready, hasItems, items, capacity := false, false, false, [], 0;
      builds := [];
      new;
      InitialInv(W(), State());
    }

    // ---------- The hook table ----------

    method FindHookEntry(pTarget: nat) returns (pos: nat)
      ensures pos == FindFrom(items, pTarget, 0)
    {
      pos := 0;
      while pos < |items|
        invariant pos <= |items| && FindFrom(items, pTarget, 0) == FindFrom(items, pTarget, pos)
      {
        if items[pos].pTarget == pTarget {
          return;
        }
        pos := pos + 1;
      }
    }

    /** Makes room for one more entry; the new entry is whatever the heap held. */
    method NewHookEntry(env: Env) returns (ok: bool)
      requires TableOk(State()) && ready
      modifies this`hasItems, this`capacity, this`items
      ensures ok ==> hasItems && capacity == old(Grown(State()))
      ensures ok ==> |items| == |old(items)| + 1 && items[..|old(items)|] == old(items)
      ensures !ok ==> items == old(items) && hasItems == old(hasItems)
      ensures !ok ==> capacity == old(capacity) || (!hasItems && capacity == INITIAL_HOOK_CAPACITY)
      ensures ok <==> env.heapAlloc || (old(hasItems) && old(|items| < capacity))
    {
      hide IsCapacity;
      if !hasItems {
        capacity := INITIAL_HOOK_CAPACITY;
        if !env.heapAlloc {
          return false;
        }
        hasItems := true;
      } else if |items| >= capacity {
        if !env.heapAlloc {
          return false;
        }
        capacity := capacity * 2;
      }
      var stale: HookEntry := *;
      items := items + [stale];
      ok := true;
    }

    /** Moves the last entry into place pos and halves the table when half of it suffices. */
    method DelHookEntry(env: Env, pos: nat)
      requires pos < |items|
      modifies this`items, this`capacity
      ensures items == Deleted(old(items), pos)
      ensures capacity == if env.heapAlloc && Shrinks(old(capacity), |items|) then old(capacity) / 2 else old(capacity)
    {
      if pos < |items| - 1 {
        items := items[pos := items[|items| - 1]];
      }
      items := items[..|items| - 1];
      if capacity / 2 >= INITIAL_HOOK_CAPACITY && capacity / 2 >= |items| {
        if !env.heapAlloc {
          return;
        }
        capacity := capacity / 2;
      }
    }

    // ---------- Threads ----------

    method FindOldIP(e: HookEntry, ip: nat) returns (r: nat)
      requires TablesOk(e)
      ensures r == OldIp(arch, e, ip)
    {
      if e.patchAbove && ip == e.pTarget - JMP_REL {
        return e.pTarget;
      }
      var i := 0;
      while i < e.nIP
        invariant i <= e.nIP &&
                  Lookup(e.newIPs, e.nIP, e.pTrampoline, ip, 0) == Lookup(e.newIPs, e.nIP, e.pTrampoline, ip, i)
      {
        if ip == e.pTrampoline + e.newIPs[i] {
          return e.pTarget + e.oldIPs[i];
        }
        i := i + 1;
      }
      // The relay behind the copies stands for the first instruction.
      if arch == X64 && ip == e.pDetour {
        return e.pTarget;
      }
      r := 0;
    }

    method FindNewIP(e: HookEntry, ip: nat) returns (r: nat)
      requires TablesOk(e)
      ensures r == NewIp(e, ip)
    {
      var i := 0;
      while i < e.nIP
        invariant i <= e.nIP && Lookup(e.oldIPs, e.nIP, e.pTarget, ip, 0) == Lookup(e.oldIPs, e.nIP, e.pTarget, ip, i)
      {
        if ip == e.pTarget + e.oldIPs[i] {
          return e.pTrampoline + e.newIPs[i];
        }
        i := i + 1;
      }
      r := 0;
    }

    /** Moves the instruction pointer of suspended thread t as hooks lo..hi-1 require. */
    method ProcessThreadIPs(sys: Threading, t: int, lo: nat, hi: nat, action: Action)
      requires lo <= hi <= |items| && AllTablesOk(items) && t in proc.threads
      modifies proc`threads
      ensures proc.threads == old(proc.threads)[t := old(proc.threads)[t].(ip :=
                var ip := old(proc.threads)[t].ip;
                if sys.canGet(t) then StoredIp(arch, items, lo, hi, action, sys, t, ip, ip) else ip)]
    {
      hide OldIp, NewIp, TablesOk;
      if !sys.canGet(t) {
        assert proc.threads == proc.threads[t := proc.threads[t].(ip := proc.threads[t].ip)];
        return;
      }
      ghost var before := proc.threads;
      var ip: nat := proc.threads[t].ip;
      var pos := lo;
      while pos < hi
        invariant lo <= pos <= hi
        invariant t in proc.threads && proc.threads == before[t := before[t].(ip := proc.threads[t].ip)]
        invariant StoredIp(arch, items, lo, hi, action, sys, t, before[t].ip, before[t].ip)
               == StoredIp(arch, items, pos, hi, action, sys, t, ip, proc.threads[t].ip)
      {
        var e := items[pos];
        if e.isEnabled != Enabling(action, e) {
          var r;
          if Enabling(action, e) {
            r := FindNewIP(e, ip);
          } else {
            r := FindOldIP(e, ip);
          }
          if r != 0 {
            ip := r;
            if sys.canSet(t, pos) {
              proc.threads := proc.threads[t := proc.threads[t].(ip := ip)];
            }
          }
        }
        pos := pos + 1;
      }
    }

    /** Suspends all other threads and moves those that stand in the code to be changed. */
    method Freeze(sys: Threading, lo: nat, hi: nat, action: Action) returns (threads: seq<int>)
      requires lo <= hi <= |items| && AllTablesOk(items) && SnapshotOk(sys)
      modifies proc`threads
      ensures FrozenAll(arch, items, lo, hi, action, sys, threads, old(proc.threads), proc.threads)
      ensures threads == Found(sys) && NoRepeats(threads)
    {
      threads := EnumerateThreads(sys);
      FoundOthers(sys);
      hide TablesOk, StoredIp, Found, FrozenAll;
      FrozenNone(arch, items, lo, hi, action, sys, proc.threads);
      ghost var before := proc.threads;
      var i := 0;
      while i < |threads|
        invariant i <= |threads|
        invariant FrozenAll(arch, items, lo, hi, action, sys, threads[..i], before, proc.threads)
      {
        var t := threads[i];
        assert threads[..i + 1] == threads[..i] + [t];
        FrozenNext(arch, items, lo, hi, action, sys, threads[..i], t, before, proc.threads);
        FrozenKeys(arch, items, lo, hi, action, sys, threads[..i], before, proc.threads);
        if sys.canOpen(t) && t in proc.threads {
          ghost var th := proc.threads;
          if sys.canSuspend(t) {
            proc.threads := proc.threads[t := Thread(proc.threads[t].ip, proc.threads[t].suspended + 1)];
          }
          ProcessThreadIPs(sys, t, lo, hi, action);
          assert proc.threads == th[t := Frozen(arch, items, lo, hi, action, sys, t, th[t])];
        }
        i := i + 1;
      }
      assert threads[..i] == threads;
    }

    method Unfreeze(sys: Threading, threads: seq<int>)
      requires NoRepeats(threads)
      modifies proc`threads
      ensures ResumedAll(sys, threads, old(proc.threads), proc.threads)
    {
      ghost var before := proc.threads;
      var i := 0;
      while i < |threads|
        invariant i <= |threads|
        invariant ResumedAll(sys, threads[..i], before, proc.threads)
      {
        var t := threads[i];
        assert t !in threads[..i];
        if sys.canReopen(t) && sys.canResume(t) && t in proc.threads {
          proc.threads := proc.threads[t := Resumed(proc.threads[t])];
        }
        assert threads[..i + 1] == threads[..i] + [t];
        i := i + 1;
      }
      assert threads[..i] == threads;
    }

    // ---------- Patching ----------

    /** Writes the patch of hook pos, or its backup; nothing happens if the window cannot be made writable. */
    method EnableHookLL(env: Env, pos: nat, enable: bool) returns (status: Status)
      requires pos < |items|
      requires !enable ==> |items[pos].backup| == PatchLen(items[pos])
      modifies this`items, proc`mem
      ensures status == if env.protect(PatchAddr(old(items[pos]))) then OK else ERROR_MEMORY_PROTECT
      ensures status == ERROR_MEMORY_PROTECT ==> items == old(items) && proc.mem == old(proc.mem)
      ensures status == OK ==>
                && items == old(items)[pos := Switched(old(items[pos]), enable)]
                && SameMem(proc.mem, Write(old(proc.mem), PatchAddr(old(items[pos])),
                   WindowBytes(old(items[pos]), enable)))
    {
      hide SameMem, Write, PatchBytes, LE, Trunc32;
      var e := items[pos];
      var pPatchTarget: int := e.pTarget;
      if e.patchAbove {
        pPatchTarget := pPatchTarget - JMP_REL;
      }
      if !env.protect(pPatchTarget) {
        return ERROR_MEMORY_PROTECT;
      }
      if enable {
        PatchWritten(proc.mem, e);
        proc.mem := Write(proc.mem, pPatchTarget, [0xE9]);
        proc.mem := Write(proc.mem, pPatchTarget + 1, LE(4, Trunc32(e.pDetour - (pPatchTarget + JMP_REL))));
        if e.patchAbove {
          proc.mem := Write(proc.mem, e.pTarget, [0xEB]);
          proc.mem := Write(proc.mem, e.pTarget + 1, [(0 - (JMP_REL_SHORT + JMP_REL)) % 0x100]);
        }
      } else {
        proc.mem := Write(proc.mem, pPatchTarget, e.backup);
        SameSelf(proc.mem);
      }
      items := items[pos := e.(isEnabled := enable, queueEnable := enable)];
      status := OK;
    }

    /**
     The loop below Freeze: switches the hooks from position start on, up to the first window that cannot be
     written.
     */
    method SwitchFrozen(env: Env, g: Goal, start: nat, ghost s0: HookState) returns (status: Status, i: nat)
      requires Linked() && Inv(W(), s0) && State() == s0.(items := items, mem := proc.mem)
      requires SwitchedTo(s0, g, start, items, proc.mem) && Writable(env.protect, g, s0.items, start)
      modifies this`items, proc`mem
      ensures Linked() && State() == s0.(items := items, mem := proc.mem)
      ensures SwitchedTo(s0, g, i, items, proc.mem) && Writable(env.protect, g, s0.items, i)
      ensures if i == |s0.items| then status == OK
              else status == ERROR_MEMORY_PROTECT && Refused(env.protect, g, s0.items, i)
    {
      hide Inv, SwitchedTo, SwitchedItems, SwitchedMem, SameMem, NeedsSwitch, Write, DecoderSane, Writable, PatchBytes;
      ghost var w := W();
      i, status := start, OK;
      SwitchedSize(s0, g, i, items, proc.mem);
      while i < |items|
        invariant i <= |items| == |s0.items| && status == OK
        invariant SwitchedTo(s0, g, i, items, proc.mem) && Writable(env.protect, g, s0.items, i)
        invariant Linked() && State() == s0.(items := items, mem := proc.mem)
      {
        NextToSwitch(w, s0, g, i, items, proc.mem);
        WritableNext(env.protect, g, s0.items, i);
        if items[i].isEnabled != Wanted(g, items[i]) {
          ghost var m1, items1 := proc.mem, items;
          status := EnableHookLL(env, i, Wanted(g, items[i]));
          if status != OK {
            return;
          }
          SwitchedOneMore(w, s0, g, i, items1, m1, items, proc.mem);
          AllocKept(m1);
        } else {
          SwitchedSkipped(s0, g, i, items, proc.mem);
        }
        i := i + 1;
      }
    }

    /**
     Switches the hooks from position start on while the other threads are frozen; they are resumed whatever the
     outcome.
     */
    method SwitchWithFreeze(env: Env, g: Goal, action: Action, start: nat, ghost s0: HookState)
      returns (status: Status, i: nat)
      requires Linked() && Inv(W(), s0) && State() == s0 && SnapshotOk(env.sys) && AllTablesOk(items)
      requires SwitchedTo(s0, g, start, items, proc.mem) && Writable(env.protect, g, s0.items, start)
      modifies this`items, proc`mem, proc`threads
      ensures Linked() && State() == s0.(items := items, mem := proc.mem)
      ensures SwitchedTo(s0, g, i, items, proc.mem) && Writable(env.protect, g, s0.items, i)
      ensures if i == |s0.items| then status == OK
              else status == ERROR_MEMORY_PROTECT && Refused(env.protect, g, s0.items, i)
      ensures Handled(arch, s0.items, 0, |s0.items|, action, env.sys, true, old(proc.threads), proc.threads)
    {
      hide Inv, SwitchedTo, TablesOk, Handled, FrozenAll, ResumedAll, DecoderSane, Writable, Refused, SnapshotOk,
           NoRepeats;
      var threads := Freeze(env.sys, 0, |items|, action);
      ghost var frozen := proc.threads;
      SwitchedSize(s0, g, start, items, proc.mem);
      status, i := SwitchFrozen(env, g, start, s0);
      SwitchedSize(s0, g, i, items, proc.mem);
      Unfreeze(env.sys, threads);
      FreezeThenUnfreeze(arch, s0.items, 0, |s0.items|, action, env.sys, old(proc.threads), frozen, proc.threads);
    }

    /**
     EnableAllHooksLL and the loop of MH_ApplyQueued: switches, in table order, every hook that does
     not have what the goal wants, freezing the other threads once before the first switch. It stops
     at the first window that cannot be written.
     */
    method SwitchAll(env: Env, g: Goal, action: Action) returns (status: Status, ghost freezes: nat)
      requires Linked() && Inv(W(), State()) && SnapshotOk(env.sys)
      requires action == match g
               case All(enable) => (if enable then ACTION_ENABLE else ACTION_DISABLE)
               case Queued => ACTION_APPLY_QUEUED
      modifies this`items, proc`mem, proc`threads
      ensures BulkStep(old(State()), g, status, State())
      ensures Linked() && Inv(W(), State())
      ensures AllTablesOk(old(items)) &&
              Handled(arch, old(items), 0, |old(items)|, action, env.sys, SomethingToSwitch(g, old(items)),
                      old(proc.threads), proc.threads)
      ensures BulkOutcome(env.protect, g, old(items), status, items)
      ensures freezes <= 1
    {
      hide Inv, BulkStep, SwitchedTo, SwitchedItems, SwitchedMem, SameMem, NeedsSwitch, Write, Handled, TablesOk,
           DecoderSane, Writable, Refused, BulkOutcome;
      ghost var w, s0, threads0 := W(), State(), proc.threads;
      ghost var n := |items|;
      InvTables(w, s0);
      HandledNone(arch, items, 0, n, action, env.sys, proc.threads);
      SwitchStarts(s0, g);
      WritableNone(env.protect, g, items);
      var i := 0;
      freezes := 0;
      while i < |items|
        invariant |items| == n && (if freezes == 0 then i <= n else freezes == 1 && i == n + 1)
        invariant freezes == 0 ==> State() == s0 && proc.threads == threads0
        invariant SwitchedTo(s0, g, if i <= n then i else n, items, proc.mem)
        invariant Writable(env.protect, g, s0.items, if i <= n then i else n)
        invariant Linked() && State() == s0.(items := items, mem := proc.mem)
        invariant Handled(arch, s0.items, 0, n, action, env.sys, freezes > 0, threads0, proc.threads)
        invariant if freezes > 0 then SomethingToSwitch(g, s0.items)
                  else forall j :: 0 <= j < i ==> !NeedsSwitch(g, s0.items[j])
      {
        NextToSwitch(w, s0, g, i, items, proc.mem);
        if items[i].isEnabled != Wanted(g, items[i]) {
          status, i := SwitchWithFreeze(env, g, action, i, s0);
          freezes := freezes + 1;
          if status != OK {
            SwitchEnds(w, env.protect, s0, g, i, status, State());
            return;
          }
          SwitchedSize(s0, g, i, items, proc.mem);
        } else {
          SwitchedSkipped(s0, g, i, items, proc.mem);
          WritableNext(env.protect, g, items, i);
        }
        i := i + 1;
      }
      status := OK;
      SwitchEnds(w, env.protect, s0, g, n, status, State());
    }

    /** Writing code only leaves the allocator sound. */
    lemma AllocKept(m: Mem)
      requires alloc.proc == proc && alloc.arch == arch && alloc.code == code
      requires alloc.Sound(alloc.blocks, alloc.gBlocks, m) && alloc.InUse(alloc.blocks)
      requires forall x :: !code(x) ==> proc.mem(x) == m(x)
      ensures alloc.Valid()
    {
      hide HeapIn;
      OutsideFrame(arch, m, proc.mem, alloc.gBlocks, alloc.blocks);
    }

    // ---------- The lock ----------

    /** The flag is free: the API is entered by one thread at a time. SpinLock models the competition for it. */
    method EnterSpinLock()
      requires !isLocked
      modifies this`isLocked
      ensures isLocked
    {
      isLocked := true;
    }

    method LeaveSpinLock()
      modifies this`isLocked
      ensures !isLocked
    {
      isLocked := false;
    }

    // ---------- The API ----------

    method MH_Initialize(env: Env) returns (status: Status)
      requires Valid()
      modifies this`isLocked, this`ready
      ensures Valid() && ApiStep(W(), old(State()), Initialize, status, State())
      ensures status == if old(ready) then ERROR_ALREADY_INITIALIZED else if env.heapCreate then OK
              else ERROR_MEMORY_ALLOC
    {
      hide Inv, DecoderSane;
      EnterSpinLock();
      if ready {
        status := ERROR_ALREADY_INITIALIZED;
      } else if !env.heapCreate {
        status := ERROR_MEMORY_ALLOC;
      } else {
        ready := true;
        status := OK;
      }
      StepKeepsInv(W(), old(State()), Initialize, status, State());
      LeaveSpinLock();
    }

    /** Switches hook pos with the other threads frozen; they are resumed whatever the outcome. */
    method SwitchOne(env: Env, pos: nat, enable: bool, action: Action) returns (status: Status)
      requires Linked() && Inv(W(), State()) && pos < |items| && SnapshotOk(env.sys) && AllTablesOk(items)
      modifies this`items, proc`mem, proc`threads
      ensures SwitchStep(old(State()), pos, enable, status, State())
      ensures status == if env.protect(PatchAddr(old(items)[pos])) then OK else ERROR_MEMORY_PROTECT
      ensures Linked() && Inv(W(), State())
      ensures Handled(arch, old(items), pos, pos + 1, action, env.sys, true, old(proc.threads), proc.threads)
    {
      hide Inv, TablesOk, Handled, FrozenAll, ResumedAll, DecoderSane, SnapshotOk, NoRepeats, SameMem, Write,
           PatchBytes, LE, Trunc32, HeapIn, IsLive, WindowBytes, Others, Records;
      ghost var s, w := State(), W();
      InvBackup(w, s, pos);
      var threads := Freeze(env.sys, pos, pos + 1, action);
      ghost var frozen := proc.threads;
      status := EnableHookLL(env, pos, enable);
      if status == OK {
        SwitchKeepsInv(w, s, pos, enable, proc.mem);
        AllocKept(s.mem);
      }
      Unfreeze(env.sys, threads);
      FreezeThenUnfreeze(arch, s.items, pos, pos + 1, action, env.sys, old(proc.threads), frozen, proc.threads);
    }

    /** Returns the slot of hook pos and drops its entry. */
    method ReleaseEntry(env: Env, pos: nat)
      requires Linked() && pos < |items| == |builds| && alloc.Live(items[pos].pTrampoline)
      modifies this`items, this`capacity, this`builds, proc`mem, alloc`gBlocks, alloc`blocks
      ensures Linked()
      ensures pos < |old(builds)|
      ensures var p := old(items)[pos].pTrampoline;
              State() == old(State()).(capacity := capacity, items := Deleted(old(items), pos),
                builds := Deleted(old(builds), pos),
                                       live := old(LiveSet()) - iset{p}, mem := proc.mem)
              && HeapOnly(W(), old(State()).(live := old(LiveSet()) - iset{p}), proc.mem)
      ensures capacity == if env.heapAlloc && Shrinks(old(capacity), |old(items)| - 1) then old(capacity) / 2
              else old(capacity)
    {
      hide Deleted, IsLive, HeapIn, DecoderSane;
      DeletedAt(items, pos);
      ghost var p, live := items[pos].pTrampoline, LiveSet();
      alloc.FreeBuffer(items[pos].pTrampoline);
      assert LiveSet() == live - iset{p};
      DelHookEntry(env, pos);
      builds := Deleted(builds, pos);
    }

    method MH_RemoveHook(env: Env, pTarget: nat) returns (status: Status)
      requires Valid() && SnapshotOk(env.sys)
      modifies this`isLocked, this`items, this`capacity, this`builds, proc`mem, proc`threads, alloc`gBlocks,
               alloc`blocks
      ensures Valid() && ApiStep(W(), old(State()), RemoveHook(pTarget), status, State())
      ensures AllTablesOk(old(items))
      ensures var pos := FindFrom(old(items), pTarget, 0);
              if pos < |old(items)| then
                Handled(arch, old(items), pos, pos + 1, ACTION_DISABLE, env.sys, old(items)[pos].isEnabled,
                        old(proc.threads), proc.threads)
              else proc.threads == old(proc.threads)
      ensures var pos := FindFrom(old(items), pTarget, 0);
              status == if !old(ready) then ERROR_NOT_INITIALIZED
                        else if pos == |old(items)| then ERROR_NOT_CREATED
                        else if old(items)[pos].isEnabled && !env.protect(PatchAddr(old(items)[pos])) then
                          ERROR_MEMORY_PROTECT
                        else OK
    {
      hide Inv, DecoderSane, TablesOk, Handled, SnapshotOk, SwitchStep, HeapOnly, Deleted, RemoveStep, Shrinks;
      ghost var s, w := State(), W();
      InvTables(w, s);
      EnterSpinLock();
      status := RemoveLocked(env, pTarget);
      StepKeepsInv(w, s, RemoveHook(pTarget), status, State());
      LeaveSpinLock();
    }

    /** The body of MH_RemoveHook. */
    method RemoveLocked(env: Env, pTarget: nat) returns (status: Status)
      requires Linked() && Inv(W(), State()) && SnapshotOk(env.sys) && AllTablesOk(items)
      modifies this`items, this`capacity, this`builds, proc`mem, proc`threads, alloc`gBlocks, alloc`blocks
      ensures Linked() && RemoveStep(W(), old(State()), pTarget, status, State())
      ensures var pos := FindFrom(old(items), pTarget, 0);
              if pos < |old(items)| then
                Handled(arch, old(items), pos, pos + 1, ACTION_DISABLE, env.sys, old(items)[pos].isEnabled,
                        old(proc.threads), proc.threads)
              else proc.threads == old(proc.threads)
      ensures var pos := FindFrom(old(items), pTarget, 0);
              status == if !old(ready) then ERROR_NOT_INITIALIZED
                        else if pos == |old(items)| then ERROR_NOT_CREATED
                        else if old(items)[pos].isEnabled && !env.protect(PatchAddr(old(items)[pos])) then
                          ERROR_MEMORY_PROTECT
                        else OK
    {
      hide Inv, DecoderSane, TablesOk, Handled, SnapshotOk, SwitchStep, HeapOnly, Deleted, RemoveStep, Shrinks;
      ghost var s, w := State(), W();
      RemoveRefused(w, s, pTarget);
      if !ready {
        InvNotReady(w, s);
        return ERROR_NOT_INITIALIZED;
      }
      var pos := FindHookEntry(pTarget);
      if pos == |items| {
        return ERROR_NOT_CREATED;
      }
      status := RemoveAt(env, pTarget, pos);
    }

    /** Disables hook pos if it is enabled, then lets go of it. */
    method RemoveAt(env: Env, ghost pTarget: nat, pos: nat) returns (status: Status)
      requires Linked() && Inv(W(), State()) && SnapshotOk(env.sys) && AllTablesOk(items)
      requires ready && pos == FindFrom(items, pTarget, 0) < |items|
      modifies this`items, this`capacity, this`builds, proc`mem, proc`threads, alloc`gBlocks, alloc`blocks
      ensures Linked() && RemoveStep(W(), old(State()), pTarget, status, State())
      ensures Handled(arch, old(items), pos, pos + 1, ACTION_DISABLE, env.sys, old(items)[pos].isEnabled,
                      old(proc.threads), proc.threads)
      ensures status == if old(items)[pos].isEnabled && !env.protect(PatchAddr(old(items)[pos])) then
              ERROR_MEMORY_PROTECT else OK
    {
      hide Inv, DecoderSane, TablesOk, Handled, SnapshotOk, SwitchStep, HeapOnly, Deleted, RemoveStep, Shrinks, HeapIn,
           IsLive;
      ghost var s, w := State(), W();
      if items[pos].isEnabled {
        status := SwitchOne(env, pos, false, ACTION_DISABLE);
        SwitchRefused(s, pos, false, status, State());
        if status != OK {
          RemoveRefused(w, s, pTarget);
          return;
        }
      } else {
        HandledNone(arch, items, pos, pos + 1, ACTION_DISABLE, env.sys, proc.threads);
      }
      ghost var s1 := State();
      EntryLive(w, s1, pos);
      EntryLive(w, s, pos);
      ReleaseEntry(env, pos);
      status := OK;
      RemoveDone(w, s, pTarget, s1, State());
    }

    /**
     EnableHook: MH_EnableHook and MH_DisableHook. A single hook is frozen for as if it were enabled, even to
     disable it.
     */
    method EnableHook(env: Env, pTarget: nat, enable: bool) returns (status: Status)
      requires Valid() && SnapshotOk(env.sys)
      modifies this`isLocked, this`items, proc`mem, proc`threads
      ensures Valid() && ApiStep(W(), old(State()), HookSpec.EnableHook(pTarget, enable), status, State())
      ensures AllTablesOk(old(items))
      ensures EnableOutcome(env.protect, old(ready), old(items), pTarget, enable, status, items)
      ensures EnableMoves(arch, old(items), pTarget, enable, env.sys, old(proc.threads), proc.threads)
    {
      hide Inv, DecoderSane, TablesOk, EnableMoves, EnableStep, EnableOutcome, SnapshotOk;
      ghost var s, w := State(), W();
      InvTables(w, s);
      EnterSpinLock();
      status := EnableLocked(env, pTarget, enable);
      StepKeepsInv(w, s, HookSpec.EnableHook(pTarget, enable), status, State());
      LeaveSpinLock();
    }

    method EnableLocked(env: Env, pTarget: nat, enable: bool) returns (status: Status)
      requires Linked() && Inv(W(), State()) && SnapshotOk(env.sys) && AllTablesOk(items)
      modifies this`items, proc`mem, proc`threads
      ensures Linked() && EnableStep(old(State()), pTarget, enable, status, State())
      ensures EnableOutcome(env.protect, old(ready), old(items), pTarget, enable, status, items)
      ensures EnableMoves(arch, old(items), pTarget, enable, env.sys, old(proc.threads), proc.threads)
    {
      hide Inv, DecoderSane, TablesOk, Handled, SnapshotOk, BulkStep, SwitchStep, BulkOutcome;
      ghost var s := State();
      if !ready {
        InvNotReady(W(), s);
        NotMoved(arch, items, pTarget, enable, env.sys, proc.threads);
        return ERROR_NOT_INITIALIZED;
      }
      if pTarget == ALL_HOOKS {
        ghost var freezes;
        status, freezes := SwitchAll(env, All(enable), if enable then ACTION_ENABLE else ACTION_DISABLE);
        return;
      }
      var pos := FindHookEntry(pTarget);
      if pos == |items| {
        NotMoved(arch, items, pTarget, enable, env.sys, proc.threads);
        return ERROR_NOT_CREATED;
      }
      if items[pos].isEnabled == enable {
        NotMoved(arch, items, pTarget, enable, env.sys, proc.threads);
        return if enable then ERROR_ENABLED else ERROR_DISABLED;
      }
      status := SwitchOne(env, pos, enable, ACTION_ENABLE);
      SwitchRefused(s, pos, enable, status, State());
      if !enable {
        DisableMovesNobody(arch, s.items, pos, env.sys, true, old(proc.threads), proc.threads);
      }
    }

    /** MH_QueueEnableHook and MH_QueueDisableHook. */
    method QueueHook(pTarget: nat, queueEnable: bool) returns (status: Status)
      requires Valid()
      modifies this`isLocked, this`items
      ensures Valid() && ApiStep(W(), old(State()), HookSpec.QueueHook(pTarget, queueEnable), status, State())
    {
      hide Inv, DecoderSane, QueueStep, ApiStep;
      ghost var s, w := State(), W();
      EnterSpinLock();
      status := QueueLocked(pTarget, queueEnable);
      QueuedInv(w, s, pTarget, queueEnable, status, State());
      LeaveSpinLock();
    }

    method QueueLocked(pTarget: nat, queueEnable: bool) returns (status: Status)
      modifies this`items
      ensures QueueStep(old(State()), pTarget, queueEnable, status, State())
    {
      if !ready {
        return ERROR_NOT_INITIALIZED;
      }
      ghost var before := items;
      if pTarget == ALL_HOOKS {
        var i := 0;
        while i < |items|
          invariant i <= |items| == |before|
          invariant forall j :: 0 <= j < |items| ==>
                    items[j] == if j < i then before[j].(queueEnable := queueEnable) else before[j]
        {
          items := items[i := items[i].(queueEnable := queueEnable)];
          i := i + 1;
        }
        assert items == QueueAll(before, queueEnable);
      } else {
        var pos := FindHookEntry(pTarget);
        if pos == |items| {
          return ERROR_NOT_CREATED;
        }
        items := items[pos := items[pos].(queueEnable := queueEnable)];
      }
      status := OK;
    }

    method MH_ApplyQueued(env: Env) returns (status: Status)
      requires Valid() && SnapshotOk(env.sys)
      modifies this`isLocked, this`items, proc`mem, proc`threads
      ensures Valid() && ApiStep(W(), old(State()), ApplyQueued, status, State())
      ensures old(ready) ==> BulkOutcome(env.protect, Queued, old(items), status, items)
      ensures AllTablesOk(old(items))
      ensures Handled(arch, old(items), 0, |old(items)|, ACTION_APPLY_QUEUED, env.sys,
                      SomethingToSwitch(Queued, old(items)), old(proc.threads), proc.threads)
    {
      hide Inv, DecoderSane, TablesOk, Handled, BulkStep, BulkOutcome, SnapshotOk;
      InvTables(W(), State());
      EnterSpinLock();
      if !ready {
        InvNotReady(W(), State());
        HandledNone(arch, items, 0, |items|, ACTION_APPLY_QUEUED, env.sys, proc.threads);
        status := ERROR_NOT_INITIALIZED;
      } else {
        ghost var freezes;
        status, freezes := SwitchAll(env, Queued, ACTION_APPLY_QUEUED);
      }
      LeaveSpinLock();
    }

    /** Disables all hooks and, if that succeeds, releases all slots and the table. */
    method MH_Uninitialize(env: Env) returns (status: Status)
      requires Valid() && SnapshotOk(env.sys)
      modifies this, proc`mem, proc`threads, alloc`gBlocks, alloc`blocks
      ensures Valid() && ApiStep(W(), old(State()), Uninitialize, status, State())
      ensures status == OK ==> (forall x :: code(x) ==> proc.mem(x) == orig(x)) && forall p :: !alloc.Live(p)
      ensures status == OK <==> old(ready) && Writable(env.protect, All(false), old(items), |old(items)|)
      ensures AllTablesOk(old(items))
      ensures Handled(arch, old(items), 0, |old(items)|, ACTION_DISABLE, env.sys,
                      SomethingToSwitch(All(false), old(items)), old(proc.threads), proc.threads)
    {
      hide Inv, DecoderSane, TablesOk, Handled, UninitializeStep, SnapshotOk, HeapIn, IsLive;
      ghost var s, w := State(), W();
      InvTables(w, s);
      EnterSpinLock();
      status := UninitializeLocked(env);
      StepKeepsInv(w, s, Uninitialize, status, State());
      if status == OK {
        UninitializedOk(s, State());
        UninitializeRestores(w, s, State());
      }
      LeaveSpinLock();
    }

    method UninitializeLocked(env: Env) returns (status: Status)
      requires Linked() && Inv(W(), State()) && SnapshotOk(env.sys) && AllTablesOk(items)
      modifies this`ready, this`hasItems, this`items, this`capacity, this`builds, proc`mem, proc`threads, alloc`gBlocks,
               alloc`blocks
      ensures Linked() && UninitializeStep(old(State()), status, State())
      ensures status == OK ==> forall p :: !alloc.Live(p)
      ensures status == OK <==> old(ready) && Writable(env.protect, All(false), old(items), |old(items)|)
      ensures Handled(arch, old(items), 0, |old(items)|, ACTION_DISABLE, env.sys,
                      SomethingToSwitch(All(false), old(items)), old(proc.threads), proc.threads)
    {
      hide Inv, DecoderSane, TablesOk, Handled, SnapshotOk, BulkStep, Writable, HeapIn, UninitializeStep;
      ghost var s := State();
      if !ready {
        InvNotReady(W(), State());
        HandledNone(arch, items, 0, |items|, ACTION_DISABLE, env.sys, proc.threads);
        status := ERROR_NOT_INITIALIZED;
        NotUninitialized(s);
        return;
      }
      ghost var freezes;
      status, freezes := SwitchAll(env, All(false), ACTION_DISABLE);
      ghost var s1 := State();
      BulkUninitializes(s, status, s1);
      if status != OK {
        return;
      }
      alloc.UninitializeBuffer();
      ready := false;
      hasItems, items, capacity := false, [], 0;
      builds := [];
      assert LiveSet() == iset{};
    }

    /** A slot within reach of the target that nothing else uses. */
    method TakeSlot(env: Env, pTarget: nat) returns (pBuffer: nat)
      requires Linked() && OsOk(arch, env.os, alloc.blocks, code) && (arch == X64 ==> pTarget <= env.os.maxApp)
      modifies proc`mem, alloc`gBlocks, alloc`blocks
      ensures Linked() && HeapOnly(W(), old(State()), proc.mem)
      ensures pBuffer == 0 ==> LiveSet() == old(LiveSet()) && old(alloc.NoBlockFor(env.os, pTarget))
      ensures pBuffer != 0 ==>
                && LiveSet() == old(LiveSet()) + iset{pBuffer} && !old(alloc.Live(pBuffer)) && alloc.Live(pBuffer)
                && Reachable(arch, pTarget, pBuffer) && OnCell(arch, pBuffer)
                && forall x :: pBuffer <= x < pBuffer + SlotSize(arch) ==> !code(x)
    {
      hide HeapIn, IsLive, OnCell, IsSlot, InReach, DecoderSane, OsOk;
      ghost var s, w := State(), W();
      pBuffer := alloc.AllocateBuffer(env.os, pTarget);
      HeapOnlySelf(w, s);
      HeapOnlyMore(w, s, s.mem, proc.mem);
      if pBuffer != 0 {
        assert LiveSet() == s.live + iset{pBuffer};
        assert Reachable(arch, pTarget, pBuffer);
        SlotIsCell(arch, pTarget, pBuffer);
      }
    }

    /** Builds the trampoline for the target in a slot that nothing else uses. */
    method FillSlot(pTarget: nat, pDetour: nat, pBuffer: nat, ghost s: HookState)
      returns (ok: bool, ct: Trampoline, ghost cs: seq<Copy>)
      requires Linked() && TargetOk(W(), pTarget)
      requires alloc.Live(pBuffer) && pBuffer !in s.live && OnCell(arch, pBuffer)
      requires HeapOnly(W(), s, proc.mem) && forall p: nat :: p in s.live ==> OnCell(arch, p)
      modifies proc`mem
      ensures Linked() && HeapOnly(W(), s, proc.mem)
      ensures fresh(ct) && fresh(ct.oldIPs) && fresh(ct.newIPs)
      ensures ct.pTarget == pTarget >= JMP_REL && ct.pDetour == pDetour && ct.pTrampoline == pBuffer && ct.Valid()
      ensures DecoderSane(arch, decode)
      ensures ok <==> CanHook(arch, decode, old(proc.mem), proc.executable, pTarget, pBuffer)
      ensures ok ==> InSlot(arch, decode, proc.executable, old(proc.mem), proc.mem, ct, cs)
    {
      hide HeapIn, IsLive, OnCell, CanHook, Layout, SlotHolds, Relocate, DecoderSane, JmpCode;
      ghost var m := proc.mem;
      alloc.SlotNotCode(pBuffer);
      IntervalsApart(code, pTarget, pBuffer, SlotSize(arch));
      ct := new Trampoline(pTarget, pDetour, pBuffer);
      ok, cs := CreateTrampolineFunction(arch, decode, proc, ct);
      SlotWriteHeapOnly(W(), s, m, proc.mem, pBuffer);
      alloc.SlotWritten(pBuffer, m);
      if ok {
        HookablePatch(arch, decode, m, proc.executable, pTarget, pBuffer, cs);
        RelocatedLength(arch, decode, m, pTarget, pBuffer, []);
      }
    }

    /** Fills in the new last entry from the trampoline and backs up the target function. */
    method FillEntry(ct: Trampoline, ghost b: Build)
      requires ct.Valid() && items != [] && JMP_REL <= ct.pTarget
      modifies this`items, this`builds
      ensures items == old(items)[|old(items)| - 1 := EntryOf(arch, proc.mem, ct)] && builds == old(builds) + [b]
      ensures items[|items| - 1].pTrampoline == ct.pTrampoline
    {
      var backup := if ct.patchAbove then Read(proc.mem, ct.pTarget - JMP_REL, JMP_REL + JMP_REL_SHORT)
        else Read(proc.mem, ct.pTarget, JMP_REL);
      var pDetour := if arch == X64 then ct.pRelay else ct.pDetour;
      items := items[|items| - 1 := HookEntry(ct.pTarget, pDetour, ct.pTrampoline, backup, ct.patchAbove, false, false,
                                              ct.nIP, ct.oldIPs[..], ct.newIPs[..])];
      builds := builds + [b];
    }

    /** Takes back the slot of a hook that could not be created. */
    method GiveUp(pBuffer: nat, ghost s: HookState)
      requires Linked() && alloc.Live(pBuffer) && pBuffer !in s.live && HeapOnly(W(), s, proc.mem)
      requires LiveSet() == s.live + iset{pBuffer}
      modifies proc`mem, alloc`gBlocks, alloc`blocks
      ensures Linked() && HeapOnly(W(), s, proc.mem) && LiveSet() == s.live
    {
      hide HeapIn, IsLive, DecoderSane;
      ghost var m := proc.mem;
      forall p: nat | p in s.live
        ensures alloc.Live(p)
      {
        assert p in LiveSet();
      }
      alloc.FreeBuffer(pBuffer);
      HeapOnlyMore(W(), s, m, proc.mem);
    }

    /** Makes the hook: a slot, a trampoline in it, and an entry for it; what was taken is given back on failure. */
    method MakeHook(env: Env, pTarget: nat, pDetour: nat) returns (status: Status, original: nat)
      requires Linked() && Inv(W(), State()) && TargetOk(W(), pTarget) && pDetour < Modulus(arch)
      requires Accepted(W(), State(), pTarget, pDetour)
      requires OsOk(arch, env.os, alloc.blocks, code) && (arch == X64 ==> pTarget <= env.os.maxApp)
      modifies this`hasItems, this`items, this`capacity, this`builds, proc`mem, alloc`gBlocks, alloc`blocks
      ensures Linked() && CreateStep(W(), old(State()), pTarget, pDetour, status, State())
      ensures status == OK ==> |items| == |old(items)| + 1 && original == items[|old(items)|].pTrampoline
      ensures status == OK ==> Hookable(arch, decode, old(proc.mem), proc.executable, pTarget)
      ensures status == ERROR_UNSUPPORTED_FUNCTION ==>
              !Hookable(arch, decode, old(proc.mem), proc.executable, pTarget)
      ensures status == ERROR_MEMORY_ALLOC ==>
                || old(alloc.NoBlockFor(env.os, pTarget))
                || (&& Hookable(arch, decode, old(proc.mem), proc.executable, pTarget) && !env.heapAlloc
                    && (!old(hasItems) || old(|items|) >= old(capacity)))
    {
      hide Inv, HeapIn, IsLive, OnCell, Reachable, CanHook, EntryOf, CreateStep, HeapOnly, DecoderSane, OsOk, TargetOk,
           InSlot, IsCapacity, Hookable;
      ghost var s, w := State(), W();
      LiveOnCells(w, s);
      InvTable(w, s);
      var pBuffer := TakeSlot(env, pTarget);
      if pBuffer == 0 {
        CreateFails(w, s, pTarget, pDetour, ERROR_MEMORY_ALLOC, State());
        return ERROR_MEMORY_ALLOC, 0;
      }
      ghost var seen := proc.mem;
      var ok, ct;
      ghost var cs;
      ok, ct, cs := FillSlot(pTarget, pDetour, pBuffer, s);
      HookableSeen(w, s, pTarget, pBuffer, seen);
      if !ok {
        CannotHook(w, s, pTarget, pBuffer, seen);
        GiveUp(pBuffer, s);
        CreateFails(w, s, pTarget, pDetour, ERROR_UNSUPPORTED_FUNCTION, State());
        return ERROR_UNSUPPORTED_FUNCTION, 0;
      }
      ok := NewHookEntry(env);
      if !ok {
        GiveUp(pBuffer, s);
        CreateFails(w, s, pTarget, pDetour, ERROR_MEMORY_ALLOC, State());
        return ERROR_MEMORY_ALLOC, 0;
      }
      ghost var b := Build(cs, seen, pDetour);
      FillEntry(ct, b);
      CreateSucceeds(w, s, pTarget, pDetour, seen, ct, b, State());
      return OK, ct.pTrampoline;
    }

    method MH_CreateHook(env: Env, pTarget: nat, pDetour: nat) returns (status: Status, original: nat)
      requires Valid() && Admissible(W(), State(), CreateHook(pTarget, pDetour))
      requires OsOk(arch, env.os, alloc.blocks, code) && (arch == X64 ==> pTarget <= env.os.maxApp)
      modifies this`isLocked, this`hasItems, this`items, this`capacity, this`builds, proc`mem, alloc`gBlocks,
               alloc`blocks
      ensures Valid() && ApiStep(W(), old(State()), CreateHook(pTarget, pDetour), status, State())
      ensures status == OK ==> |items| == |old(items)| + 1 && original == items[|old(items)|].pTrampoline
      ensures status == OK ==> Hookable(arch, decode, old(proc.mem), proc.executable, pTarget)
      ensures status == ERROR_UNSUPPORTED_FUNCTION ==>
              !Hookable(arch, decode, old(proc.mem), proc.executable, pTarget)
      ensures status == ERROR_MEMORY_ALLOC ==>
                || old(alloc.NoBlockFor(env.os, pTarget))
                || (&& Hookable(arch, decode, old(proc.mem), proc.executable, pTarget) && !env.heapAlloc
                    && (!old(hasItems) || old(|items|) >= old(capacity)))
    {
      hide Inv, HeapIn, CreateStep, DecoderSane, OsOk, TargetOk, Hookable;
      ghost var s, w := State(), W();
      EnterSpinLock();
      original := 0;
      if !ready {
        status := ERROR_NOT_INITIALIZED;
      } else if !proc.executable(pTarget) || !proc.executable(pDetour) {
        status := ERROR_NOT_EXECUTABLE;
      } else {
        var pos := FindHookEntry(pTarget);
        if pos < |items| {
          status := ERROR_ALREADY_CREATED;
        } else {
          status, original := MakeHook(env, pTarget, pDetour);
        }
      }
      CreateRefused(w, s, pTarget, pDetour);
      StepKeepsInv(w, s, CreateHook(pTarget, pDetour), status, State());
      LeaveSpinLock();
    }
  }

  lemma InvTables(w: World, s: HookState)
    requires Inv(w, s)
    ensures AllTablesOk(s.items)
  {
    hide AllSlotsOk, AllSeparate, SlotsOwned, CodeShows, IsCapacity, EntryOk;
    forall i | 0 <= i < |s.items|
      ensures TablesOk(s.items[i])
    {
      EntryTables(w, s.items[i], s.builds[i]);
    }
  }

  lemma InvBackup(w: World, s: HookState, pos: nat)
    requires Inv(w, s) && pos < |s.items|
    ensures |s.items[pos].backup| == PatchLen(s.items[pos])
  {
    hide AllSlotsOk, AllSeparate, SlotsOwned, CodeShows, IsCapacity, AllEntriesOk;
    BackupSize(w.orig, s.items, pos);
  }

  lemma InvNotReady(w: World, s: HookState)
    requires Inv(w, s) && !s.ready
    ensures s.items == []
  {
    hide AllSlotsOk, AllSeparate, SlotsOwned, CodeShows, AllEntriesOk, AllBackedUp;
  }

  lemma EntryLive(w: World, s: HookState, pos: nat)
    requires Inv(w, s) && pos < |s.items|
    ensures s.items[pos].pTrampoline in s.live && |s.builds| == |s.items|
  {
    hide AllSlotsOk, AllSeparate, CodeShows, AllEntriesOk, AllBackedUp, IsCapacity;
  }

  // ---------- The steps of MH_RemoveHook ----------

  lemma RemoveRefused(w: World, s: HookState, target: nat)
    ensures var pos := FindFrom(s.items, target, 0);
            && (!s.ready ==> RemoveStep(w, s, target, ERROR_NOT_INITIALIZED, s))
            && (s.ready && pos == |s.items| ==> RemoveStep(w, s, target, ERROR_NOT_CREATED, s))
            && (s.ready && pos < |s.items| && s.items[pos].isEnabled ==>
                RemoveStep(w, s, target, ERROR_MEMORY_PROTECT, s))
  {
    hide Deleted, HeapOnly, Write;
  }

  lemma SwitchRefused(s: HookState, pos: nat, enable: bool, status: Status, s': HookState)
    requires pos < |s.items| && SwitchStep(s, pos, enable, status, s')
    ensures status != OK ==> s' == s
    ensures status == OK ==>
            s'.items == s.items[pos := Switched(s.items[pos], enable)] && s' == s.(items := s'.items, mem := s'.mem)
  {
    hide SameMem, Write;
  }

  lemma RemoveDone(w: World, s: HookState, target: nat, s1: HookState, s2: HookState)
    requires var pos := FindFrom(s.items, target, 0);
             && s.ready && pos < |s.items| == |s.builds|
             && (if s.items[pos].isEnabled then SwitchStep(s, pos, false, OK, s1) else s1 == s)
             && s2 == s1.(capacity := s2.capacity, items := Deleted(s1.items, pos), builds := Deleted(s1.builds, pos),
                          live := s1.live - iset{s1.items[pos].pTrampoline}, mem := s2.mem)
             && HeapOnly(w, s1.(live := s1.live - iset{s1.items[pos].pTrampoline}), s2.mem)
             && (s2.capacity == s.capacity || (Shrinks(s.capacity, |s.items| - 1) && s2.capacity == s.capacity / 2))
    ensures RemoveStep(w, s, target, OK, s2)
  {
    var pos := FindFrom(s.items, target, 0);
    var e := s.items[pos];
    DeletedSwitched(s.items, pos, Switched(e, false));
    hide Deleted, Shrinks, Write;
  }

  // ---------- The steps of EnableHook ----------

  /** The status of EnableHook and, for a single hook, its state afterwards. */
  ghost predicate EnableOutcome(protect: int -> bool, ready: bool, items: seq<HookEntry>, target: nat, enable: bool,
                                status: Status, items': seq<HookEntry>)
  {
    var pos := FindFrom(items, target, 0);
    if !ready then status == ERROR_NOT_INITIALIZED
    else if target == ALL_HOOKS then BulkOutcome(protect, All(enable), items, status, items')
    else if pos == |items| then status == ERROR_NOT_CREATED
    else if items[pos].isEnabled == enable then status == if enable then ERROR_ENABLED else ERROR_DISABLED
    else
      && status == (if protect(PatchAddr(items[pos])) then OK else ERROR_MEMORY_PROTECT)
      && items' == if status == OK then items[pos := Switched(items[pos], enable)] else items
  }

  /** EnableHook moves nobody when it switches nothing. */
  lemma NotMoved(arch: Arch, items: seq<HookEntry>, target: nat, enable: bool, sys: Threading,
                 threads: map<int, Thread>)
    requires AllTablesOk(items)
    requires if target == ALL_HOOKS then items == []
             else var pos := FindFrom(items, target, 0); pos < |items| ==> items[pos].isEnabled == enable
    ensures EnableMoves(arch, items, target, enable, sys, threads, threads)
  {
    var pos := FindFrom(items, target, 0);
    hide TablesOk, StoredIp, Handled;
    HandledNone(arch, items, 0, |items|, if enable then ACTION_ENABLE else ACTION_DISABLE, sys, threads);
    if pos < |items| {
      HandledNone(arch, items, pos, pos + 1, ACTION_ENABLE, sys, threads);
    }
  }

  /** ACTION_ENABLE for a hook that is enabled moves nobody. */
  lemma DisableMovesNobody(arch: Arch, items: seq<HookEntry>, pos: nat, sys: Threading, froze: bool,
                           before: map<int, Thread>, after: map<int, Thread>)
    requires AllTablesOk(items) && pos < |items| && items[pos].isEnabled
    requires Handled(arch, items, pos, pos + 1, ACTION_ENABLE, sys, froze, before, after)
    ensures SameIps(before, after)
  {
    hide TablesOk, OldIp, NewIp, Found;
    forall t | t in before
      ensures StoredIp(arch, items, pos, pos + 1, ACTION_ENABLE, sys, t, before[t].ip, before[t].ip) == before[t].ip
    {
      assert StoredIp(arch, items, pos + 1, pos + 1, ACTION_ENABLE, sys, t, before[t].ip, before[t].ip) == before[t].ip;
    }
    hide StoredIp;
  }

  // ---------- The steps of MH_Uninitialize ----------

  lemma NotUninitialized(s: HookState)
    requires !s.ready
    ensures UninitializeStep(s, ERROR_NOT_INITIALIZED, s)
  {
  }

  lemma BulkUninitializes(s: HookState, status: Status, s1: HookState)
    requires s.ready && BulkStep(s, All(false), status, s1)
    ensures status != OK ==> UninitializeStep(s, status, s1)
    ensures status == OK ==> UninitializeStep(s, OK, HookState(false, false, 0, [], [], iset{}, s1.mem))
  {
    hide SwitchedItems, SwitchedMem, SameMem, NeedsSwitch;
  }

  lemma UninitializedOk(s: HookState, s': HookState)
    requires UninitializeStep(s, OK, s')
    ensures s.ready
  {
    hide SwitchedMem, SameMem;
  }

  // ---------- The steps of MH_CreateHook ----------

  /** The trampoline ct has been built in its slot from what memory m0 held at the target. */
  ghost predicate InSlot(arch: Arch, decode: Decoder, executable: int -> bool, m0: Mem, m: Mem, ct: Trampoline,
                         cs: seq<Copy>)
    requires ct.Valid() && DecoderSane(arch, decode)
    reads ct, ct.oldIPs, ct.newIPs
  {
    && cs != [] && Layout(arch, decode, m0, ct.pTarget, ct.pTrampoline, cs)
    && SourceEnd(cs) == CodeLength(arch, decode, m0, ct.pTarget, 0, 0)
    && Patchable(m0, executable, ct.pTarget, cs) && ct.patchAbove == !Room(m0, ct.pTarget, SourceEnd(cs), JMP_REL)
    && ct.Lists(cs) && SlotHolds(m, ct.pTrampoline, cs)
    && (arch == X64 ==>
          && ct.pRelay == ct.pTrampoline + CodeEnd(cs)
          && Read(m, ct.pRelay, JmpSize(arch)) == JmpCode(arch, ct.pRelay, ct.pDetour))
  }

  lemma HookablePatch(arch: Arch, decode: Decoder, m: Mem, executable: int -> bool, target: nat, slot: nat,
                      cs: seq<Copy>)
    requires DecoderSane(arch, decode) && CanHook(arch, decode, m, executable, target, slot)
    requires Relocate(arch, decode, m, target, slot, []) == Some(cs)
    ensures cs != [] && Patchable(m, executable, target, cs)
  {
    hide Relocate, Patchable;
  }

  /** The entry that the fields of a trampoline and the bytes at the target make. */
  ghost function EntryOf(arch: Arch, m: Mem, ct: Trampoline): HookEntry
    requires ct.Valid()
    reads ct, ct.oldIPs, ct.newIPs
  {
    HookEntry(ct.pTarget, if arch == X64 then ct.pRelay else ct.pDetour, ct.pTrampoline,
              Read(m, PatchStart(ct.pTarget, ct.patchAbove), PatchSize(ct.patchAbove)),
              ct.patchAbove, false, false, ct.nIP, ct.oldIPs[..], ct.newIPs[..])
  }

  /** The slot lies in a block within reach of the target. */
  ghost predicate Reachable(arch: Arch, target: nat, slot: nat) {
    exists b: nat :: IsSlot(arch, b, slot) && b + BLOCK <= Modulus(arch) && InReach(arch, target, b)
  }

  lemma SlotIsCell(arch: Arch, target: nat, slot: nat)
    requires Reachable(arch, target, slot)
    ensures OnCell(arch, slot)
  {
    hide InReach;
  }

  lemma InvTable(w: World, s: HookState)
    requires Inv(w, s)
    ensures TableOk(s)
  {
    hide AllSlotsOk, AllSeparate, SlotsOwned, CodeShows, AllEntriesOk, AllBackedUp, TableOk;
  }

  lemma HeapOnlySelf(w: World, s: HookState)
    ensures HeapOnly(w, s, s.mem)
  {
  }

  lemma CannotHook(w: World, s: HookState, target: nat, slot: nat, m: Mem)
    requires DecoderSane(w.arch, w.decode) && HeapOnly(w, s, m) && slot !in s.live
    requires !CanHook(w.arch, w.decode, m, w.executable, target, slot)
    ensures Unhookable(w, s, target)
  {
    hide DecoderSane, CanHook;
    assert Fails(w, s, target, slot, m);
  }

  /** Whether a hook can be made depends on code that the allocator does not touch. */
  lemma HookableSeen(w: World, s: HookState, target: nat, slot: nat, seen: Mem)
    requires DecoderSane(w.arch, w.decode) && TargetOk(w, target) && HeapOnly(w, s, seen)
    ensures CanHook(w.arch, w.decode, seen, w.executable, target, slot) <==>
            Hookable(w.arch, w.decode, s.mem, w.executable, target)
  {
    hide DecoderSane, CanHook, Hookable;
    HookableExactly(w.arch, w.decode, seen, w.executable, target, slot);
    SameHookable(w.arch, w.decode, seen, s.mem, w.executable, target);
  }

  lemma CreateRefused(w: World, s: HookState, target: nat, detour: nat)
    ensures !s.ready ==> CreateStep(w, s, target, detour, ERROR_NOT_INITIALIZED, s)
    ensures s.ready && !(w.executable(target) && w.executable(detour)) ==>
            CreateStep(w, s, target, detour, ERROR_NOT_EXECUTABLE, s)
    ensures s.ready && w.executable(target) && w.executable(detour) && FindFrom(s.items, target, 0) < |s.items| ==>
              CreateStep(w, s, target, detour, ERROR_ALREADY_CREATED, s)
  {
    hide HeapOnly, NewEntry, Unhookable, SlotOk;
  }

  /** The call gets as far as asking for a slot. */
  ghost predicate Accepted(w: World, s: HookState, target: nat, detour: nat) {
    s.ready && w.executable(target) && w.executable(detour) && FindFrom(s.items, target, 0) == |s.items|
  }

  lemma CreateFails(w: World, s: HookState, target: nat, detour: nat, status: Status, s': HookState)
    requires Accepted(w, s, target, detour)
    requires status == ERROR_MEMORY_ALLOC || (status == ERROR_UNSUPPORTED_FUNCTION && Unhookable(w, s, target))
    requires s' == s.(capacity := s'.capacity, mem := s'.mem) && HeapOnly(w, s, s'.mem)
    requires s'.capacity == s.capacity || (!s.hasItems && s'.capacity == INITIAL_HOOK_CAPACITY)
    ensures CreateStep(w, s, target, detour, status, s')
  {
    hide HeapOnly, NewEntry, Unhookable, SlotOk;
  }

  lemma EntryListed(arch: Arch, decode: Decoder, executable: int -> bool, m0: Mem, m: Mem, ct: Trampoline,
                    cs: seq<Copy>)
    requires ct.Valid() && DecoderSane(arch, decode) && InSlot(arch, decode, executable, m0, m, ct, cs)
    ensures Listed(EntryOf(arch, m, ct), cs)
  {
    hide Layout, SlotHolds, Patchable, JmpCode, Room, Read;
  }

  /** The windows of admissible targets are code, which only the engine writes. */
  lemma WindowSeen(w: World, s: HookState, target: nat, above: bool, m: Mem)
    requires TargetOk(w, target) && HeapOnly(w, s, m)
    ensures Read(m, PatchStart(target, above), PatchSize(above)) ==
            Read(s.mem, PatchStart(target, above), PatchSize(above))
  {
    ReadAgree(s.mem, m, PatchStart(target, above), PatchSize(above));
  }

  lemma QueuedInv(w: World, s: HookState, target: nat, enable: bool, status: Status, s': HookState)
    requires DecoderSane(w.arch, w.decode) && Inv(w, s) && QueueStep(s, target, enable, status, s')
    ensures ApiStep(w, s, HookSpec.QueueHook(target, enable), status, s') && Inv(w, s')
  {
    hide Inv, DecoderSane, QueueStep;
    StepKeepsInv(w, s, HookSpec.QueueHook(target, enable), status, s');
  }

  lemma CreateSucceeds(w: World, s: HookState, target: nat, detour: nat, seen: Mem, ct: Trampoline, b: Build,
                       s': HookState)
    requires DecoderSane(w.arch, w.decode) && Accepted(w, s, target, detour) && TargetOk(w, target) &&
             detour < Modulus(w.arch)
    requires ct.Valid() && ct.pTarget == target && ct.pDetour == detour && ct.pTrampoline !in s.live
    requires Reachable(w.arch, target, ct.pTrampoline)
    requires forall x :: ct.pTrampoline <= x < ct.pTrampoline + SlotSize(w.arch) ==> !w.code(x)
    requires b == Build(b.cs, seen, detour) && InSlot(w.arch, w.decode, w.executable, seen, s'.mem, ct, b.cs)
    requires HeapOnly(w, s, seen) && HeapOnly(w, s, s'.mem)
    requires s' == HookState(true, true, Grown(s), s.items + [EntryOf(w.arch, s'.mem, ct)], s.builds + [b],
                             s.live + iset{ct.pTrampoline}, s'.mem)
    ensures CreateStep(w, s, target, detour, OK, s')
  {
    var e := EntryOf(w.arch, s'.mem, ct);
    EntryListed(w.arch, w.decode, w.executable, seen, s'.mem, ct, b.cs);
    WindowSeen(w, s, target, ct.patchAbove, s'.mem);
    hide Layout, SlotHolds, Patchable, JmpCode, Room, Read, DecoderSane, TargetOk, Listed, IsSlot, InReach, EntryOk,
         FindFrom;
    var blk: nat :| IsSlot(w.arch, blk, ct.pTrampoline) && blk + BLOCK <= Modulus(w.arch) &&
      InReach(w.arch, target, blk);
    NewEntryOk(w, s, target, detour, blk, seen, e, b);
    assert NewEntry(w, s, target, detour, e, b);
    assert SlotOk(w.arch, s'.mem, e, b);
    hide NewEntry, SlotOk, HeapOnly;
  }

  lemma HandledNone(arch: Arch, items: seq<HookEntry>, lo: nat, hi: nat, action: Action, sys: Threading,
                    threads: map<int, Thread>)
    requires lo <= hi <= |items| && AllTablesOk(items)
    ensures Handled(arch, items, lo, hi, action, sys, false, threads, threads)
  {
    hide Thawed, AllTablesOk;
  }

  lemma FrozenNone(arch: Arch, items: seq<HookEntry>, lo: nat, hi: nat, action: Action, sys: Threading,
                   threads: map<int, Thread>)
    requires lo <= hi <= |items| && AllTablesOk(items)
    ensures FrozenAll(arch, items, lo, hi, action, sys, [], threads, threads)
  {
  }

  lemma FrozenKeys(arch: Arch, items: seq<HookEntry>, lo: nat, hi: nat, action: Action, sys: Threading, list: seq<int>,
                   before: map<int, Thread>, after: map<int, Thread>)
    requires lo <= hi <= |items| && AllTablesOk(items) &&
             FrozenAll(arch, items, lo, hi, action, sys, list, before, after)
    ensures after.Keys == before.Keys
  {
  }
}
