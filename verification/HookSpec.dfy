/**
 hook.c as a state machine: the hook table, the bytes it patches and restores, and what one API
 call may do to them. The invariant of the machine is stated here; HookRuns proves that every call keeps it.
 */
module HookSpec {
  import opened Bytes
  import opened Cpu
  import opened TrampolineSpec
  import opened TrampolineBuilder
  import opened TrampolineCode
  import opened SlotHeap
  import opened Buffer

  /** HOOK_ENTRY. The bit fields are booleans; backup holds only the bytes that were saved. */
  datatype HookEntry = HookEntry(pTarget: nat, pDetour: nat, pTrampoline: nat, backup: seq<Byte>,
                                 patchAbove: bool, isEnabled: bool, queueEnable: bool,
                                 nIP: nat, oldIPs: seq<Byte>, newIPs: seq<Byte>)

  /** How an entry's trampoline was built: its copies, the memory they were read from, and the user's detour. */
  datatype Build = Build(cs: seq<Copy>, seen: Mem, detour: nat)

  datatype Status = OK | ERROR_ALREADY_INITIALIZED | ERROR_NOT_INITIALIZED | ERROR_ALREADY_CREATED | ERROR_NOT_CREATED
                  | ERROR_ENABLED | ERROR_DISABLED | ERROR_NOT_EXECUTABLE | ERROR_UNSUPPORTED_FUNCTION
                  | ERROR_MEMORY_ALLOC | ERROR_MEMORY_PROTECT

  const INITIAL_HOOK_CAPACITY: nat := 32
  /** MH_ALL_HOOKS (NULL). */
  const ALL_HOOKS: nat := 0

  // ---------- Patches ----------

  function PatchAddr(e: HookEntry): int {
    PatchStart(e.pTarget, e.patchAbove)
  }

  function PatchLen(e: HookEntry): nat {
    PatchSize(e.patchAbove)
  }

  predicate InWindow(e: HookEntry, x: int) {
    PatchAddr(e) <= x < PatchAddr(e) + PatchLen(e)
  }

  /** The long jump to the detour, followed by the short jump back to it when the patch lies above the target. */
  function PatchBytes(e: HookEntry): seq<Byte> {
    [0xE9] + LE(4, Trunc32(e.pDetour - (PatchAddr(e) + JMP_REL))) + (if e.patchAbove then [0xEB, 0xF9] else [])
  }

  function WindowBytes(e: HookEntry, enable: bool): seq<Byte> {
    if enable then PatchBytes(e) else e.backup
  }

  function Switched(e: HookEntry, enable: bool): HookEntry {
    e.(isEnabled := enable, queueEnable := enable)
  }

  ghost predicate Patched(items: seq<HookEntry>, x: int) {
    exists i :: 0 <= i < |items| && items[i].isEnabled && InWindow(items[i], x)
  }

  /** The code is the original code with the patches of exactly the enabled hooks laid over it. */
  ghost predicate CodeShows(m: Mem, orig: Mem, code: int -> bool, items: seq<HookEntry>) {
    && (forall i :: 0 <= i < |items| && items[i].isEnabled ==>
        Read(m, PatchAddr(items[i]), PatchLen(items[i])) == PatchBytes(items[i]))
    && (forall x :: code(x) && !Patched(items, x) ==> m(x) == orig(x))
  }

  // ---------- The hook table ----------

  /** Position of the first entry for target, |items| if there is none. */
  function FindFrom(items: seq<HookEntry>, target: nat, i: nat): (pos: nat)
    requires i <= |items|
    ensures i <= pos <= |items|
    ensures pos < |items| ==> items[pos].pTarget == target
    ensures forall k :: i <= k < pos ==> items[k].pTarget != target
    decreases |items| - i
  {
    if i == |items| || items[i].pTarget == target then i else FindFrom(items, target, i + 1)
  }

  /** The table without entry pos: the last entry takes its place. */
  function Deleted<T>(items: seq<T>, pos: nat): seq<T>
    requires pos < |items|
  {
    var last := |items| - 1;
    if pos < last then items[pos := items[last]][..last] else items[..last]
  }

  /** Capacities are 32 doubled some number of times. */
  predicate IsCapacity(c: nat) {
    c == INITIAL_HOOK_CAPACITY || (c > INITIAL_HOOK_CAPACITY && c % 2 == 0 && IsCapacity(c / 2))
  }

  // ---------- States ----------

  /** ready: the private heap exists; hasItems: pItems is not NULL; live: the slots handed out. */
  datatype HookState = HookState(ready: bool, hasItems: bool, capacity: nat, items: seq<HookEntry>, builds: seq<Build>,
                                 live: iset<nat>, mem: Mem)

  /**
   The world a hook engine lives in: processor, disassembler, the program's original bytes, where its code is,
   and what is executable.
   */
  datatype World = World(arch: Arch, decode: Decoder, orig: Mem, code: int -> bool, executable: int -> bool)

  /** The bytes around a target that hooking reads or writes are code of the program, at addresses that do not wrap. */
  ghost predicate TargetOk(w: World, target: nat) {
    && JMP_REL < target && target + 64 <= Modulus(w.arch)
    && forall x :: target - JMP_REL <= x < target + READ_AHEAD ==> w.code(x)
  }

  /** The boundary tables of e list the boundaries of cs. */
  predicate Listed(e: HookEntry, cs: seq<Copy>) {
    && e.nIP == |cs| <= MAX_IPS == |e.oldIPs| == |e.newIPs|
    && forall k :: 0 <= k < e.nIP ==> e.oldIPs[k] == cs[k].oldPos && e.newIPs[k] == cs[k].newPos
  }

  /** The detour the patch jumps to: the relay behind the trampoline on x64, the user's function on x86. */
  predicate DetourOk(arch: Arch, e: HookEntry, b: Build)
    requires b.cs != []
  {
    && b.detour < Modulus(arch)
    && if arch == X64 then e.pDetour == e.pTrampoline + CodeEnd(b.cs) && FitsInt32(e.pDetour - (PatchAddr(e) + JMP_REL))
       else e.pDetour == b.detour
  }

  /** The slot still holds the trampoline and, on x64, the relay. */
  ghost predicate SlotOk(arch: Arch, m: Mem, e: HookEntry, b: Build) {
    && SlotHolds(m, e.pTrampoline, b.cs)
    && (arch == X64 ==> Read(m, e.pDetour, JmpSize(arch)) == JmpCode(arch, e.pDetour, b.detour))
  }

  /** The patch covers copied instructions and padding, above the target only where there is no room on it. */
  ghost predicate PatchOk(w: World, e: HookEntry, b: Build) {
    b.cs != [] && Patchable(b.seen, w.executable, e.pTarget, b.cs) &&
      e.patchAbove == !Room(b.seen, e.pTarget, SourceEnd(b.cs), JMP_REL)
  }

  /** The trampoline replaces all the code that the builder had to decode. */
  ghost predicate LengthOk(w: World, e: HookEntry, b: Build) {
    DecoderSane(w.arch, w.decode) && b.cs != [] ==>
      SourceEnd(b.cs) == CodeLength(w.arch, w.decode, b.seen, e.pTarget, 0, 0)
  }

  /** What holds of an entry from its creation on. */
  ghost predicate EntryOk(w: World, e: HookEntry, b: Build) {
    && TargetOk(w, e.pTarget)
    && Apart(e.pTarget, e.pTrampoline, SlotSize(w.arch))
    && JMP_REL <= e.pTrampoline && e.pTrampoline + SlotSize(w.arch) <= Modulus(w.arch) && OnCell(w.arch, e.pTrampoline)
    && (forall x :: e.pTrampoline <= x < e.pTrampoline + SlotSize(w.arch) ==> !w.code(x))
    && Layout(w.arch, w.decode, b.seen, e.pTarget, e.pTrampoline, b.cs)
    && Listed(e, b.cs)
    && PatchOk(w, e, b) && LengthOk(w, e, b)
    && SlotNear(w.arch, e.pTarget, e.pTrampoline)
    && DetourOk(w.arch, e, b)
  }

  /** Targets ten bytes apart have disjoint patch windows, wherever the patches go. */
  predicate Separate(e: HookEntry, f: HookEntry) {
    && (e.pTarget + 2 * JMP_REL <= f.pTarget || f.pTarget + 2 * JMP_REL <= e.pTarget)
    && e.pTrampoline != f.pTrampoline
  }

  ghost predicate TableOk(s: HookState) {
    && (!s.ready ==> !s.hasItems && s.capacity == 0)
    && (s.hasItems ==> IsCapacity(s.capacity) && |s.items| <= s.capacity)
    && (!s.hasItems ==> s.items == [] && (s.capacity == 0 || s.capacity == INITIAL_HOOK_CAPACITY))
    && |s.builds| == |s.items|
  }

  ghost predicate AllSeparate(items: seq<HookEntry>) {
    forall i, j :: 0 <= i < j < |items| ==> Separate(items[i], items[j])
  }

  /** Live slots are exactly the trampolines of the table. */
  ghost predicate SlotsOwned(items: seq<HookEntry>, live: iset<nat>) {
    forall s: nat :: s in live <==> exists i :: 0 <= i < |items| && items[i].pTrampoline == s
  }

  ghost predicate AllEntriesOk(w: World, items: seq<HookEntry>, builds: seq<Build>)
    requires |builds| == |items|
  {
    forall i :: 0 <= i < |items| ==> EntryOk(w, items[i], builds[i])
  }

  /** Every entry's backup is the original code. */
  ghost predicate AllBackedUp(orig: Mem, items: seq<HookEntry>) {
    forall i :: 0 <= i < |items| ==> items[i].backup == Read(orig, PatchAddr(items[i]), PatchLen(items[i]))
  }

  ghost predicate AllSlotsOk(arch: Arch, m: Mem, items: seq<HookEntry>, builds: seq<Build>)
    requires |builds| == |items|
  {
    forall i :: 0 <= i < |items| ==> SlotOk(arch, m, items[i], builds[i])
  }

  /** The invariant of every run of API calls. */
  ghost predicate Inv(w: World, s: HookState) {
    && TableOk(s)
    && AllSeparate(s.items)
    && SlotsOwned(s.items, s.live)
    && AllEntriesOk(w, s.items, s.builds)
    && AllBackedUp(w.orig, s.items)
    && AllSlotsOk(w.arch, s.mem, s.items, s.builds)
    && CodeShows(s.mem, w.orig, w.code, s.items)
  }

  // ---------- Calls ----------

  datatype Call =
    | Initialize
    | Uninitialize
    | CreateHook(target: nat, detour: nat)
    | RemoveHook(target: nat)
    | EnableHook(target: nat, enable: bool)
    | QueueHook(target: nat, enable: bool)
    | ApplyQueued

  /** Which state a bulk operation wants for a hook. */
  datatype Goal = All(enable: bool) | Queued

  function Wanted(g: Goal, e: HookEntry): bool {
    if g.All? then g.enable else e.queueEnable
  }

  predicate NeedsSwitch(g: Goal, e: HookEntry) {
    e.isEnabled != Wanted(g, e)
  }

  /** The first k entries have got what g wants; the others are untouched. */
  function SwitchedItems(items: seq<HookEntry>, g: Goal, k: nat): (r: seq<HookEntry>)
    requires k <= |items|
    ensures |r| == |items|
    ensures forall i :: 0 <= i < |items| ==>
            r[i] == if i < k && NeedsSwitch(g, items[i]) then Switched(items[i], Wanted(g, items[i])) else items[i]
  {
    seq(|items|, i requires 0 <= i < |items| =>
      if i < k && NeedsSwitch(g, items[i]) then Switched(items[i], Wanted(g, items[i])) else items[i])
  }

  /** The memory after the windows of the first k entries have been written where g asks for it. */
  function SwitchedMem(m: Mem, items: seq<HookEntry>, g: Goal, k: nat): Mem
    requires k <= |items|
  {
    if k == 0 then m
    else
      var before := SwitchedMem(m, items, g, k - 1);
      var e := items[k - 1];
      if NeedsSwitch(g, e) then Write(before, PatchAddr(e), WindowBytes(e, Wanted(g, e))) else before
  }

  ghost predicate SameMem(m: Mem, m': Mem) {
    forall x :: m(x) == m'(x)
  }

  /** Nothing but the allocator's own memory has changed. */
  ghost predicate HeapOnly(w: World, s: HookState, m': Mem) {
    && (forall x :: w.code(x) ==> m'(x) == s.mem(x))
    && (forall p: nat, x :: p in s.live && p <= x < p + SlotSize(w.arch) ==> m'(x) == s.mem(x))
  }

  /** A bulk switch: a prefix of k entries is switched, all of them if and only if it succeeds. */
  ghost predicate BulkStep(s: HookState, g: Goal, status: Status, s': HookState) {
    exists k: nat ::
      && k <= |s.items|
      && (if k == |s.items| then status == OK else status == ERROR_MEMORY_PROTECT && NeedsSwitch(g, s.items[k]))
      && s' == s.(items := SwitchedItems(s.items, g, k), mem := s'.mem)
      && SameMem(s'.mem, SwitchedMem(s.mem, s.items, g, k))
  }

  /** The window of entry i has to be written but cannot be made writable. */
  predicate Refused(protect: int -> bool, g: Goal, items: seq<HookEntry>, i: nat)
    requires i < |items|
  {
    NeedsSwitch(g, items[i]) && !protect(PatchAddr(items[i]))
  }

  /** No window of the first k entries is refused. */
  ghost predicate Writable(protect: int -> bool, g: Goal, items: seq<HookEntry>, k: nat) {
    k <= |items| && forall i :: 0 <= i < k ==> !Refused(protect, g, items, i)
  }

  /**
   What a bulk switch achieves: it succeeds exactly when every window it needs can be written, and
   then every hook is as wanted; otherwise exactly the hooks before the first refused one are.
   */
  ghost predicate BulkOutcome(protect: int -> bool, g: Goal, items: seq<HookEntry>, status: Status,
                              items': seq<HookEntry>) {
    && |items'| == |items|
    && (status == OK <==> Writable(protect, g, items, |items|))
    && forall i :: 0 <= i < |items| ==>
         && items'[i].pTarget == items[i].pTarget
         && (items'[i].isEnabled == Wanted(g, items[i]) <==>
             !NeedsSwitch(g, items[i]) || Writable(protect, g, items, i + 1))
  }

  /** Hook pos is switched, or the protection of its window cannot be changed. */
  ghost predicate SwitchStep(s: HookState, pos: nat, enable: bool, status: Status, s': HookState)
    requires pos < |s.items|
  {
    || (status == ERROR_MEMORY_PROTECT && s' == s)
    || (&& status == OK
        && s' == s.(items := s.items[pos := Switched(s.items[pos], enable)], mem := s'.mem)
        && SameMem(s'.mem, Write(s.mem, PatchAddr(s.items[pos]), WindowBytes(s.items[pos], enable))))
  }

  /** A new, disabled hook whose backup was read from the memory before the call. */
  ghost predicate NewEntry(w: World, s: HookState, target: nat, detour: nat, e: HookEntry, b: Build) {
    && e.pTarget == target && b.detour == detour
    && !e.isEnabled && !e.queueEnable
    && e.pTrampoline !in s.live
    && EntryOk(w, e, b)
    && (forall x :: w.code(x) ==> b.seen(x) == s.mem(x))
    && e.backup == Read(s.mem, PatchAddr(e), PatchLen(e))
  }

  /** Some slot that was not in use cannot hold a trampoline for the target. */
  ghost predicate Unhookable(w: World, s: HookState, target: nat) {
    DecoderSane(w.arch, w.decode) && exists slot: nat, m: Mem :: slot !in s.live && Fails(w, s, target, slot, m)
  }

  ghost predicate Fails(w: World, s: HookState, target: nat, slot: nat, m: Mem)
    requires DecoderSane(w.arch, w.decode)
  {
    (forall x :: w.code(x) ==> m(x) == s.mem(x)) && !CanHook(w.arch, w.decode, m, w.executable, target, slot)
  }

  ghost predicate CreateStep(w: World, s: HookState, target: nat, detour: nat, status: Status, s': HookState) {
    if !s.ready then status == ERROR_NOT_INITIALIZED && s' == s
    else if !w.executable(target) || !w.executable(detour) then status == ERROR_NOT_EXECUTABLE && s' == s
    else if FindFrom(s.items, target, 0) < |s.items| then status == ERROR_ALREADY_CREATED && s' == s
    else if status != OK then
      && (status == ERROR_MEMORY_ALLOC || (status == ERROR_UNSUPPORTED_FUNCTION && Unhookable(w, s, target)))
      && s' == s.(capacity := s'.capacity, mem := s'.mem)
      && (s'.capacity == s.capacity || (!s.hasItems && s'.capacity == INITIAL_HOOK_CAPACITY))
      && HeapOnly(w, s, s'.mem)
    else
      exists e, b ::
        && NewEntry(w, s, target, detour, e, b)
        && s' == HookState(true, true, Grown(s), s.items + [e], s.builds + [b], s.live + iset{e.pTrampoline}, s'.mem)
        && HeapOnly(w, s, s'.mem)
        && SlotOk(w.arch, s'.mem, e, b)
  }

  /** The capacity after room has been made for one more entry. */
  function Grown(s: HookState): nat {
    if !s.hasItems then INITIAL_HOOK_CAPACITY
    else if |s.items| >= s.capacity then 2 * s.capacity
    else s.capacity
  }

  /** The table may be halved once half of it holds all entries. */
  predicate Shrinks(capacity: nat, size: nat) {
    capacity / 2 >= INITIAL_HOOK_CAPACITY && capacity / 2 >= size
  }

  ghost predicate RemoveStep(w: World, s: HookState, target: nat, status: Status, s': HookState) {
    var pos := FindFrom(s.items, target, 0);
    if !s.ready then status == ERROR_NOT_INITIALIZED && s' == s
    else if pos == |s.items| then status == ERROR_NOT_CREATED && s' == s
    else
      var e := s.items[pos];
      || (status == ERROR_MEMORY_PROTECT && e.isEnabled && s' == s)
      || (&& status == OK && pos < |s.builds|
          && s' == s.(capacity := s'.capacity, items := Deleted(s.items, pos), builds := Deleted(s.builds, pos),
                      live := s.live - iset{e.pTrampoline}, mem := s'.mem)
          && (s'.capacity == s.capacity || (Shrinks(s.capacity, |s.items| - 1) && s'.capacity == s.capacity / 2))
          && var restored := if e.isEnabled then Write(s.mem, PatchAddr(e), e.backup) else s.mem;
             HeapOnly(w, s.(live := s'.live, mem := restored), s'.mem))
  }

  ghost predicate EnableStep(s: HookState, target: nat, enable: bool, status: Status, s': HookState) {
    var pos := FindFrom(s.items, target, 0);
    if !s.ready then status == ERROR_NOT_INITIALIZED && s' == s
    else if target == ALL_HOOKS then BulkStep(s, All(enable), status, s')
    else if pos == |s.items| then status == ERROR_NOT_CREATED && s' == s
    else if s.items[pos].isEnabled == enable then
      status == (if enable then ERROR_ENABLED else ERROR_DISABLED) && s' == s
    else SwitchStep(s, pos, enable, status, s')
  }

  function QueueAll(items: seq<HookEntry>, enable: bool): (r: seq<HookEntry>)
    ensures |r| == |items| && forall i :: 0 <= i < |items| ==> r[i] == items[i].(queueEnable := enable)
  {
    seq(|items|, i requires 0 <= i < |items| => items[i].(queueEnable := enable))
  }

  ghost predicate QueueStep(s: HookState, target: nat, enable: bool, status: Status, s': HookState) {
    var pos := FindFrom(s.items, target, 0);
    if !s.ready then status == ERROR_NOT_INITIALIZED && s' == s
    else if target == ALL_HOOKS then status == OK && s' == s.(items := QueueAll(s.items, enable))
    else if pos == |s.items| then status == ERROR_NOT_CREATED && s' == s
    else status == OK && s' == s.(items := s.items[pos := s.items[pos].(queueEnable := enable)])
  }

  ghost predicate InitializeStep(s: HookState, status: Status, s': HookState) {
    if s.ready then status == ERROR_ALREADY_INITIALIZED && s' == s
    else || (status == ERROR_MEMORY_ALLOC && s' == s)
         || (status == OK && s' == s.(ready := true))
  }

  ghost predicate UninitializeStep(s: HookState, status: Status, s': HookState) {
    if !s.ready then status == ERROR_NOT_INITIALIZED && s' == s
    else if status == OK then
      && s' == HookState(false, false, 0, [], [], iset{}, s'.mem)
      && SameMem(s'.mem, SwitchedMem(s.mem, s.items, All(false), |s.items|))
    else BulkStep(s, All(false), status, s')
  }

  /** The hook to be created keeps clear of all others; MH_ALL_HOOKS names no function. */
  ghost predicate Admissible(w: World, s: HookState, call: Call) {
    call.CreateHook? ==>
      && TargetOk(w, call.target) && call.detour < Modulus(w.arch)
      && forall i :: 0 <= i < |s.items| && s.items[i].pTarget != call.target ==>
           call.target + 2 * JMP_REL <= s.items[i].pTarget || s.items[i].pTarget + 2 * JMP_REL <= call.target
  }

  /** What a call may do. */
  ghost predicate ApiStep(w: World, s: HookState, call: Call, status: Status, s': HookState) {
    match call
    case Initialize => InitializeStep(s, status, s')
    case Uninitialize => UninitializeStep(s, status, s')
    case CreateHook(target, detour) => CreateStep(w, s, target, detour, status, s')
    case RemoveHook(target) => RemoveStep(w, s, target, status, s')
    case EnableHook(target, enable) => EnableStep(s, target, enable, status, s')
    case QueueHook(target, enable) => QueueStep(s, target, enable, status, s')
    case ApplyQueued => if !s.ready then status == ERROR_NOT_INITIALIZED && s' == s else BulkStep(s, Queued, status, s')
  }
}
