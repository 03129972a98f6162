/** hook.c: suspending the other threads of the process, moving their instruction pointers, and resuming them. */
module FrozenThreads {
  import opened Bytes
  import opened Cpu
  import opened ProcessState
  import opened HookSpec
  import opened ThreadSpec

  /** THREADENTRY32; sizeOk: the record is long enough to hold the owner. */
  datatype ThreadRecord = ThreadRecord(sizeOk: bool, owner: int, tid: int)

  /** The operating system's answers about threads during one operation; Freeze and Unfreeze each get their own. */
  datatype Threading = Threading(
    snapshot: Option<seq<ThreadRecord>>,  // CreateToolhelp32Snapshot
    process: int, current: int,           // this process and this thread
    grow: nat -> bool,                    // HeapAlloc/HeapReAlloc for so many thread IDs
    canOpen: int -> bool,                 // OpenThread in Freeze
    canSuspend: int -> bool,              // SuspendThread
    canGet: int -> bool,                  // GetThreadContext
    canSet: (int, nat) -> bool,           // SetThreadContext on behalf of the hook at that position
    canReopen: int -> bool,               // OpenThread in Unfreeze
    canResume: int -> bool)               // ResumeThread

  const INITIAL_THREAD_CAPACITY: nat := 128

  /** A thread of this process other than the calling one. */
  predicate Other(sys: Threading, r: ThreadRecord) {
    r.sizeOk && r.owner == sys.process && r.tid != sys.current
  }

  /** The IDs of the other threads, in snapshot order. */
  function Others(sys: Threading, records: seq<ThreadRecord>): seq<int> {
    if records == [] then []
    else
      var last := records[|records| - 1];
      Others(sys, records[..|records| - 1]) + if Other(sys, last) then [last.tid] else []
  }

  function Records(sys: Threading): seq<ThreadRecord> {
    if sys.snapshot.Some? then sys.snapshot.value else []
  }

  /** A snapshot lists a thread once. */
  ghost predicate SnapshotOk(sys: Threading) {
    forall i, j :: 0 <= i < j < |Records(sys)| ==> Records(sys)[i].tid != Records(sys)[j].tid
  }

  /** How many of n thread IDs the list can take, when it has this capacity and grows by doubling. */
  function Kept(sys: Threading, n: nat, capacity: nat): (r: nat)
    requires capacity > 0
    ensures r <= n
    decreases n - capacity
  {
    if n <= capacity then n
    else if !sys.grow(2 * capacity) then capacity
    else Kept(sys, n, 2 * capacity)
  }

  /** The threads an operation freezes: the first of the others, as many as there is memory for. */
  function Found(sys: Threading): seq<int> {
    var all := Others(sys, Records(sys));
    if all == [] || !sys.grow(INITIAL_THREAD_CAPACITY) then [] else all[..Kept(sys, |all|, INITIAL_THREAD_CAPACITY)]
  }

  lemma {:induction false} KeptAll(sys: Threading, n: nat, capacity: nat)
    requires capacity > 0 && forall c: nat :: sys.grow(c)
    ensures Kept(sys, n, capacity) == n
    decreases n - capacity
  {
    if n > capacity {
      KeptAll(sys, n, 2 * capacity);
    }
  }

  /** With enough memory all other threads are found; in any case no thread twice. */
  lemma FoundOthers(sys: Threading)
    ensures (forall c: nat :: sys.grow(c)) ==> Found(sys) == Others(sys, Records(sys))
    ensures Found(sys) <= Others(sys, Records(sys))
    ensures SnapshotOk(sys) ==> NoRepeats(Found(sys))
  {
    var all := Others(sys, Records(sys));
    if forall c: nat :: sys.grow(c) {
      KeptAll(sys, |all|, INITIAL_THREAD_CAPACITY);
    }
    if SnapshotOk(sys) {
      OthersOnce(sys, Records(sys));
    }
  }

  lemma {:induction false} OthersPrefix(sys: Threading, records: seq<ThreadRecord>, n: nat)
    requires n <= |records|
    ensures Others(sys, records[..n]) <= Others(sys, records)
    decreases |records|
  {
    if n < |records| {
      var front := records[..|records| - 1];
      OthersPrefix(sys, front, n);
      assert front[..n] == records[..n];
    } else {
      assert records[..n] == records;
    }
  }

  /** The other threads, in snapshot order, as many as the list can take. */
  method EnumerateThreads(sys: Threading) returns (threads: seq<int>)
    ensures threads == Found(sys)
  {
    threads := [];
    var hasItems, capacity := false, 0;
    var records := Records(sys);
    ghost var all := Others(sys, records);
    var i := 0;
    while i < |records|
      invariant 0 <= i <= |records| && threads == Others(sys, records[..i])
      invariant if hasItems then sys.grow(INITIAL_THREAD_CAPACITY) else threads == []
      invariant hasItems ==> 0 < |threads| <= capacity
      invariant hasItems ==> Kept(sys, |all|, INITIAL_THREAD_CAPACITY) == Kept(sys, |all|, capacity)
    {
      assert records[..i + 1][..i] == records[..i];
      OthersPrefix(sys, records, i);
      OthersPrefix(sys, records, i + 1);
      var te := records[i];
      if Other(sys, te) {
        if !hasItems {
          capacity := INITIAL_THREAD_CAPACITY;
          if !sys.grow(capacity) {
            break;
          }
          hasItems := true;
        } else if |threads| >= capacity {
          if !sys.grow(capacity * 2) {
            break;
          }
          capacity := capacity * 2;
        }
        threads := threads + [te.tid];
      }
      i := i + 1;
    }
    assert i == |records| ==> records[..i] == records;
  }

  lemma {:induction false} OthersListed(sys: Threading, records: seq<ThreadRecord>, t: int)
    ensures t in Others(sys, records) <==>
            exists i :: 0 <= i < |records| && Other(sys, records[i]) && records[i].tid == t
  {
    if records != [] {
      var front := records[..|records| - 1];
      OthersListed(sys, front, t);
      assert forall i :: 0 <= i < |front| ==> front[i] == records[i];
      if t in Others(sys, records) && t !in Others(sys, front) {
        assert records[|records| - 1].tid == t;
      }
    }
  }

  predicate NoRepeats(s: seq<int>) {
    forall i, j :: 0 <= i < j < |s| ==> s[i] != s[j]
  }

  lemma {:induction false} OthersOnce(sys: Threading, records: seq<ThreadRecord>)
    requires forall i, j :: 0 <= i < j < |records| ==> records[i].tid != records[j].tid
    ensures NoRepeats(Others(sys, records))
  {
    if records != [] {
      var front := records[..|records| - 1];
      OthersOnce(sys, front);
      OthersListed(sys, front, records[|records| - 1].tid);
    }
  }

  /**
   Which threads are found, in terms of the snapshot: threads of this process other than the caller, whose record
   is long enough to say so. With enough memory all of them are.
   */
  lemma FoundMeans(sys: Threading, t: int)
    ensures t in Found(sys) ==>
              && sys.snapshot.Some?
              && exists i :: 0 <= i < |sys.snapshot.value| && var r := sys.snapshot.value[i];
                   r.sizeOk && r.owner == sys.process && r.tid == t && t != sys.current
    ensures (forall c: nat :: sys.grow(c)) && sys.snapshot.Some? ==>
              forall i :: 0 <= i < |sys.snapshot.value| ==> var r := sys.snapshot.value[i];
                r.sizeOk && r.owner == sys.process && r.tid == t && t != sys.current ==> t in Found(sys)
  {
    FoundOthers(sys);
    hide Found;
    OthersListed(sys, Records(sys), t);
    if t in Found(sys) {
      assert t in Others(sys, Records(sys));
    }
  }

  function Doubled(n: nat): (r: nat)
    ensures r >= 128
  {
    if n == 0 then 128 else 2 * Doubled(n - 1)
  }

  /** The list takes 128 threads, doubled as often as memory is granted for it: all of them, or as many as it can. */
  lemma {:induction false} KeptMeans(sys: Threading, n: nat, j: nat) returns (k: nat)
    ensures k >= j && forall i: nat :: j < i <= k ==> sys.grow(Doubled(i))
    ensures Kept(sys, n, Doubled(j)) == if n <= Doubled(k) then n else Doubled(k)
    ensures n > Doubled(k) ==> !sys.grow(Doubled(k + 1))
    decreases n - Doubled(j)
  {
    if n <= Doubled(j) || !sys.grow(Doubled(j + 1)) {
      k := j;
    } else {
      k := KeptMeans(sys, n, j + 1);
    }
  }

  /** How many of the other threads are found: none without memory for 128, and otherwise as many as the list takes. */
  lemma FoundCount(sys: Threading) returns (k: nat)
    ensures !sys.grow(128) ==> Found(sys) == []
    ensures sys.grow(128) ==>
              var n := |Others(sys, Records(sys))|;
              && |Found(sys)| == (if n <= Doubled(k) then n else Doubled(k))
              && (forall i: nat :: 0 < i <= k ==> sys.grow(Doubled(i)))
              && (n > Doubled(k) ==> !sys.grow(Doubled(k + 1)))
  {
    k := KeptMeans(sys, |Others(sys, Records(sys))|, 0);
    hide Others, Records, Kept;
  }

  // ---------- One thread, many threads ----------

  /**
   The instruction pointer a thread is left with: ip is what the hooks before pos made of it, stored what was
   last written back.
   */
  ghost function StoredIp(arch: Arch, items: seq<HookEntry>, pos: nat, count: nat, action: Action, sys: Threading,
                          t: int, ip: nat, stored: nat): nat
    requires pos <= count <= |items| && AllTablesOk(items)
    decreases count - pos
  {
    if pos == count then stored
    else
      var r := Redirect(arch, action, items[pos], ip);
      if r == 0 then StoredIp(arch, items, pos + 1, count, action, sys, t, ip, stored)
      else StoredIp(arch, items, pos + 1, count, action, sys, t, r, if sys.canSet(t, pos) then r else stored)
  }

  /** If every write succeeds, the thread is left with what the hooks make of its instruction pointer. */
  lemma {:induction false} StoredFully(arch: Arch, items: seq<HookEntry>, pos: nat, count: nat, action: Action,
                                      sys: Threading, t: int, ip: nat)
    requires pos <= count <= |items| && AllTablesOk(items) && forall i: nat :: pos <= i < count ==> sys.canSet(t, i)
    ensures StoredIp(arch, items, pos, count, action, sys, t, ip, ip) ==
            MoveThrough(arch, items, pos, count, action, ip)
    decreases count - pos
  {
    hide Redirect, TablesOk;
    if pos < count {
      StoredFully(arch, items, pos + 1, count, action, sys, t, MoveIp(arch, action, items[pos], ip));
    }
  }

  /**
   A thread that Freeze has opened: suspended once more if that succeeds, and moved as far as its context can
   be read and written.
   */
  ghost function Frozen(arch: Arch, items: seq<HookEntry>, lo: nat, hi: nat, action: Action, sys: Threading, t: int,
                        th: Thread): Thread
    requires lo <= hi <= |items| && AllTablesOk(items)
  {
    Thread(if sys.canGet(t) then StoredIp(arch, items, lo, hi, action, sys, t, th.ip, th.ip) else th.ip,
           th.suspended + if sys.canSuspend(t) then 1 else 0)
  }

  function Resumed(th: Thread): Thread {
    th.(suspended := if th.suspended > 0 then th.suspended - 1 else 0)
  }

  /** Freezing exactly the listed threads that can be opened. */
  ghost predicate FrozenAll(arch: Arch, items: seq<HookEntry>, lo: nat, hi: nat, action: Action, sys: Threading,
                            list: seq<int>, before: map<int, Thread>, after: map<int, Thread>)
    requires lo <= hi <= |items| && AllTablesOk(items)
  {
    && after.Keys == before.Keys
    && forall t :: t in before ==>
         after[t] ==
         if t in list && sys.canOpen(t) then Frozen(arch, items, lo, hi, action, sys, t, before[t]) else before[t]
  }

  /** Unfreeze gets as far as resuming thread t. */
  predicate Resumes(sys: Threading, t: int) {
    sys.canReopen(t) && sys.canResume(t)
  }

  /** Freeze gets as far as suspending thread t. */
  predicate Suspends(sys: Threading, t: int) {
    sys.canOpen(t) && sys.canSuspend(t)
  }

  ghost predicate ResumedAll(sys: Threading, list: seq<int>, before: map<int, Thread>, after: map<int, Thread>) {
    && after.Keys == before.Keys
    && forall t :: t in before ==> after[t] == if t in list && Resumes(sys, t) then Resumed(before[t]) else before[t]
  }

  /** What a freeze and the following unfreeze make of a listed thread. */
  ghost function Thawed(arch: Arch, items: seq<HookEntry>, lo: nat, hi: nat, action: Action, sys: Threading, t: int,
                        th: Thread): Thread
    requires lo <= hi <= |items| && AllTablesOk(items)
  {
    var frozen := if sys.canOpen(t) then Frozen(arch, items, lo, hi, action, sys, t, th) else th;
    if Resumes(sys, t) then Resumed(frozen) else frozen
  }

  ghost predicate HandledList(arch: Arch, items: seq<HookEntry>, lo: nat, hi: nat, action: Action, sys: Threading,
                              list: seq<int>, before: map<int, Thread>, after: map<int, Thread>)
    requires lo <= hi <= |items| && AllTablesOk(items)
  {
    && after.Keys == before.Keys
    && forall t :: t in before ==>
         after[t] == if t in list then Thawed(arch, items, lo, hi, action, sys, t, before[t]) else before[t]
  }

  /** An operation has frozen and unfrozen the other threads, if it froze at all, and done nothing else to threads. */
  ghost predicate Handled(arch: Arch, items: seq<HookEntry>, lo: nat, hi: nat, action: Action, sys: Threading,
                          froze: bool, before: map<int, Thread>, after: map<int, Thread>)
    requires lo <= hi <= |items| && AllTablesOk(items)
  {
    HandledList(arch, items, lo, hi, action, sys, if froze then Found(sys) else [], before, after)
  }

  lemma FreezeThenUnfreeze(arch: Arch, items: seq<HookEntry>, lo: nat, hi: nat, action: Action, sys: Threading,
                           before: map<int, Thread>, frozen: map<int, Thread>, after: map<int, Thread>)
    requires lo <= hi <= |items| && AllTablesOk(items)
    requires FrozenAll(arch, items, lo, hi, action, sys, Found(sys), before, frozen)
    requires ResumedAll(sys, Found(sys), frozen, after)
    ensures Handled(arch, items, lo, hi, action, sys, true, before, after)
  {
    hide StoredIp, AllTablesOk, Found;
  }

  /** The other way round: the threads as they were between Freeze and Unfreeze. Unfreeze moves none of them. */
  lemma FrozenBetween(arch: Arch, items: seq<HookEntry>, lo: nat, hi: nat, action: Action, sys: Threading,
                      before: map<int, Thread>, after: map<int, Thread>) returns (frozen: map<int, Thread>)
    requires lo <= hi <= |items| && AllTablesOk(items)
    requires Handled(arch, items, lo, hi, action, sys, true, before, after)
    ensures FrozenAll(arch, items, lo, hi, action, sys, Found(sys), before, frozen)
    ensures after.Keys == frozen.Keys == before.Keys && forall t :: t in before ==> after[t].ip == frozen[t].ip
  {
    hide StoredIp, AllTablesOk, Found;
    frozen := map t | t in before ::
      if t in Found(sys) && sys.canOpen(t) then Frozen(arch, items, lo, hi, action, sys, t, before[t]) else before[t];
  }

  /**
   What an operation does to one thread, in terms of the answers of the system: nothing if the thread is not
   listed. Opening and suspending it counts one up, opening it again and resuming it one down, but not below 0.
   Its instruction pointer stays unless it can be opened and its context read.
   */
  lemma HandledMeans(arch: Arch, items: seq<HookEntry>, lo: nat, hi: nat, action: Action, sys: Threading,
                     list: seq<int>, before: map<int, Thread>, after: map<int, Thread>, t: int)
    requires lo <= hi <= |items| && AllTablesOk(items) && t in before
    requires HandledList(arch, items, lo, hi, action, sys, list, before, after)
    ensures t in after
    ensures t !in list ==> after[t] == before[t]
    ensures t in list ==>
              var up := before[t].suspended + if sys.canOpen(t) && sys.canSuspend(t) then 1 else 0;
              after[t].suspended == if sys.canReopen(t) && sys.canResume(t) && up > 0 then up - 1 else up
    ensures !(sys.canOpen(t) && sys.canGet(t)) || (forall i :: !sys.canSet(t, i)) ==> after[t].ip == before[t].ip
  {
    hide AllTablesOk, StoredIp;
    if forall i :: !sys.canSet(t, i) {
      NothingStored(arch, items, lo, hi, action, sys, t, before[t].ip, before[t].ip);
    }
  }

  lemma {:induction false} NothingStored(arch: Arch, items: seq<HookEntry>, pos: nat, count: nat, action: Action,
                                        sys: Threading, t: int, ip: nat, stored: nat)
    requires pos <= count <= |items| && AllTablesOk(items) && forall i :: !sys.canSet(t, i)
    ensures StoredIp(arch, items, pos, count, action, sys, t, ip, stored) == stored
    decreases count - pos
  {
    hide Redirect, TablesOk;
    if pos < count {
      var r := Redirect(arch, action, items[pos], ip);
      NothingStored(arch, items, pos + 1, count, action, sys, t, if r == 0 then ip else r, stored);
    }
  }

  /** Some hook does not have what the goal wants. */
  ghost predicate SomethingToSwitch(g: Goal, items: seq<HookEntry>) {
    exists i :: 0 <= i < |items| && NeedsSwitch(g, items[i])
  }

  ghost predicate SameIps(before: map<int, Thread>, after: map<int, Thread>) {
    after.Keys == before.Keys && forall t :: t in before ==> after[t].ip == before[t].ip
  }

  /**
   What EnableHook does to threads. They are frozen if there is something to switch. Disabling a single hook
   moves none: the threads are frozen with ACTION_ENABLE, which passes over a hook that is already enabled.
   */
  ghost predicate EnableMoves(arch: Arch, items: seq<HookEntry>, target: nat, enable: bool, sys: Threading,
                              before: map<int, Thread>, after: map<int, Thread>)
    requires AllTablesOk(items)
  {
    var pos := FindFrom(items, target, 0);
    if target == ALL_HOOKS then
      Handled(arch, items, 0, |items|, if enable then ACTION_ENABLE else ACTION_DISABLE, sys,
              SomethingToSwitch(All(enable), items), before, after)
    else if pos < |items| then
      && Handled(arch, items, pos, pos + 1, ACTION_ENABLE, sys, items[pos].isEnabled != enable, before, after)
      && (enable || SameIps(before, after))
    else after == before
  }

  // ---------- Suspend counts ----------

  ghost predicate SameCounts(before: map<int, Thread>, after: map<int, Thread>) {
    after.Keys == before.Keys && forall t :: t in before ==> after[t].suspended == before[t].suspended
  }

  /**
   Suspending and resuming thread t both happen or both do not; resuming alone does no harm to a thread that is
   not suspended.
   */
  predicate Paired(sys: Threading, t: int, th: Thread) {
    Suspends(sys, t) == Resumes(sys, t) || (!Suspends(sys, t) && th.suspended == 0)
  }

  /**
   The suspend counts are what they were if and only if the answers to Freeze and Unfreeze pair up for every
   listed thread.
   */
  lemma CountsKeptExactly(arch: Arch, items: seq<HookEntry>, lo: nat, hi: nat, action: Action, sys: Threading,
                          list: seq<int>, before: map<int, Thread>, after: map<int, Thread>)
    requires lo <= hi <= |items| && AllTablesOk(items)
    requires HandledList(arch, items, lo, hi, action, sys, list, before, after)
    ensures SameCounts(before, after) <==> forall t :: t in before && t in list ==> Paired(sys, t, before[t])
  {
    hide StoredIp, AllTablesOk;
    forall t | t in before
      ensures after[t].suspended == before[t].suspended <==> (t in list ==> Paired(sys, t, before[t]))
    {
    }
    hide Thawed, Paired;
  }

  /** An operation of the API keeps all suspend counts if the answers pair up for every thread. */
  lemma CountsKept(arch: Arch, items: seq<HookEntry>, lo: nat, hi: nat, action: Action, sys: Threading, froze: bool,
                   before: map<int, Thread>, after: map<int, Thread>)
    requires lo <= hi <= |items| && AllTablesOk(items)
    requires Handled(arch, items, lo, hi, action, sys, froze, before, after)
    requires forall t :: t in before ==> Paired(sys, t, before[t])
    ensures SameCounts(before, after)
  {
    hide HandledList, Paired, AllTablesOk, Found;
    CountsKeptExactly(arch, items, lo, hi, action, sys, if froze then Found(sys) else [], before, after);
  }

  /**
   A system with one other thread, 7, which Freeze can open and suspend; whether Unfreeze can open it again is
   the argument.
   */
  function OneThread(reopens: bool): Threading {
    Threading(Some([ThreadRecord(true, 1, 7)]), 1, 2, n => true, t => true, t => true, t => true, (t, i) => true,
              t => reopens, t => true)
  }

  /** If Unfreeze cannot open a thread again, the thread stays suspended; if it can, the thread runs on. */
  lemma LeftSuspended(arch: Arch, items: seq<HookEntry>, lo: nat, hi: nat, action: Action, ip: nat, reopens: bool)
    requires lo <= hi <= |items| && AllTablesOk(items)
    ensures var sys := OneThread(reopens);
            var ip' := StoredIp(arch, items, lo, hi, action, sys, 7, ip, ip);
            && SnapshotOk(sys)
            && Handled(arch, items, lo, hi, action, sys, true, map[7 := Thread(ip, 0)],
                       map[7 := Thread(ip', if reopens then 0 else 1)])
  {
    var sys := OneThread(reopens);
    assert Records(sys)[..1] == Records(sys) && Records(sys)[..0] == [];
    assert Others(sys, Records(sys)) == Others(sys, []) + [7];
    assert Found(sys) == [7];
    hide StoredIp, AllTablesOk;
  }

  lemma FrozenNext(arch: Arch, items: seq<HookEntry>, lo: nat, hi: nat, action: Action, sys: Threading, list: seq<int>,
                   t: int, before: map<int, Thread>, after: map<int, Thread>)
    requires lo <= hi <= |items| && AllTablesOk(items)
    requires FrozenAll(arch, items, lo, hi, action, sys, list, before, after) && t !in list
    ensures sys.canOpen(t) && t in before ==>
              t in after && after[t] == before[t]
              && FrozenAll(arch, items, lo, hi, action, sys, list + [t], before,
                 after[t := Frozen(arch, items, lo, hi, action, sys, t, before[t])])
    ensures !(sys.canOpen(t) && t in before) ==> FrozenAll(arch, items, lo, hi, action, sys, list + [t], before, after)
  {
    hide Frozen, AllTablesOk;
  }
}
