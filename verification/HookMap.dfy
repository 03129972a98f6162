/**
 The hook table refines a finite map from targets to flags. Growing, shrinking, the swap with the
 last entry on deletion and the order of the entries are invisible in the map.
 */
module HookMap {
  import opened Bytes
  import opened TrampolineSpec
  import opened HookSpec
  import opened HookRuns

  datatype Flags = Flags(enabled: bool, queued: bool)

  function FlagsOf(e: HookEntry): Flags {
    Flags(e.isEnabled, e.queueEnable)
  }

  ghost predicate DistinctTargets(items: seq<HookEntry>) {
    forall i, j :: 0 <= i < j < |items| ==> items[i].pTarget != items[j].pTarget
  }

  ghost predicate Holds(items: seq<HookEntry>, t: nat) {
    exists i :: 0 <= i < |items| && items[i].pTarget == t
  }

  /** The table as a map. */
  ghost function View(items: seq<HookEntry>): map<nat, Flags> {
    map i | 0 <= i < |items| && FindFrom(items, items[i].pTarget, 0) == i :: items[i].pTarget := FlagsOf(items[i])
  }

  /** Looking a target up in the table is looking it up in the map. */
  lemma LookupAgrees(items: seq<HookEntry>, t: nat)
    requires DistinctTargets(items)
    ensures t in View(items) <==> FindFrom(items, t, 0) < |items|
    ensures t in View(items) <==> Holds(items, t)
    ensures t in View(items) ==> View(items)[t] == FlagsOf(items[FindFrom(items, t, 0)])
  {
    var pos := FindFrom(items, t, 0);
    if pos < |items| {
      assert FindFrom(items, items[pos].pTarget, 0) == pos;
    }
  }

  lemma EntryInView(items: seq<HookEntry>, i: nat)
    requires DistinctTargets(items) && i < |items|
    ensures items[i].pTarget in View(items) && View(items)[items[i].pTarget] == FlagsOf(items[i])
    ensures FindFrom(items, items[i].pTarget, 0) == i
  {
    LookupAgrees(items, items[i].pTarget);
  }

  /** A map that agrees with the table on every entry and has no other key is its view. */
  lemma ViewIs(items: seq<HookEntry>, h: map<nat, Flags>)
    requires DistinctTargets(items)
    requires forall i :: 0 <= i < |items| ==> items[i].pTarget in h && h[items[i].pTarget] == FlagsOf(items[i])
    requires forall t :: t in h ==> Holds(items, t)
    ensures View(items) == h
  {
    forall t: nat
      ensures t in View(items) <==> t in h
      ensures t in h ==> View(items)[t] == h[t]
    {
      LookupAgrees(items, t);
    }
  }

  lemma InvDistinct(w: World, s: HookState)
    requires Inv(w, s)
    ensures DistinctTargets(s.items)
  {
    hide EntryOk, SlotOk, AllSlotsOk, CodeShows, IsCapacity, AllBackedUp, SlotsOwned, AllEntriesOk;
    forall i, j | 0 <= i < j < |s.items|
      ensures s.items[i].pTarget != s.items[j].pTarget
    {
      assert Separate(s.items[i], s.items[j]);
    }
  }

  // ---------- What the operations on the table are on the map ----------

  lemma AddedView(items: seq<HookEntry>, e: HookEntry)
    requires DistinctTargets(items) && FindFrom(items, e.pTarget, 0) == |items|
    ensures DistinctTargets(items + [e])
    ensures e.pTarget !in View(items) && View(items + [e]) == View(items)[e.pTarget := FlagsOf(e)]
  {
    LookupAgrees(items, e.pTarget);
    var h := View(items)[e.pTarget := FlagsOf(e)];
    var items' := items + [e];
    assert DistinctTargets(items');
    hide View, DistinctTargets, FindFrom;
    forall i | 0 <= i < |items'|
      ensures items'[i].pTarget in h && h[items'[i].pTarget] == FlagsOf(items'[i])
    {
      if i < |items| {
        EntryInView(items, i);
      }
    }
    forall t | t in h
      ensures Holds(items', t)
    {
      if t == e.pTarget {
        assert items'[|items|].pTarget == t;
      } else {
        LookupAgrees(items, t);
        assert items'[FindFrom(items, t, 0)].pTarget == t;
      }
    }
    ViewIs(items', h);
  }

  /** Overwriting entry pos with one for the same target. */
  lemma UpdatedView(items: seq<HookEntry>, pos: nat, e: HookEntry)
    requires DistinctTargets(items) && pos < |items| && e.pTarget == items[pos].pTarget
    ensures DistinctTargets(items[pos := e])
    ensures View(items[pos := e]) == View(items)[e.pTarget := FlagsOf(e)]
  {
    var items' := items[pos := e];
    var h := View(items)[e.pTarget := FlagsOf(e)];
    assert DistinctTargets(items');
    hide View, DistinctTargets, FindFrom;
    EntryInView(items, pos);
    forall i | 0 <= i < |items'|
      ensures items'[i].pTarget in h && h[items'[i].pTarget] == FlagsOf(items'[i])
    {
      EntryInView(items, i);
    }
    forall t | t in h
      ensures Holds(items', t)
    {
      LookupAgrees(items, t);
      assert items'[FindFrom(items, t, 0)].pTarget == t;
    }
    ViewIs(items', h);
  }

  lemma DeletedDistinct(items: seq<HookEntry>, pos: nat)
    requires DistinctTargets(items) && pos < |items|
    ensures DistinctTargets(Deleted(items, pos))
  {
    DeletedAt(items, pos);
    hide Deleted, From, To;
    var items' := Deleted(items, pos);
    forall i, j | 0 <= i < j < |items'|
      ensures items'[i].pTarget != items'[j].pTarget
    {
      EntryInView(items, From(items, pos, i));
      EntryInView(items, From(items, pos, j));
      FromApart(items, pos, i, j);
    }
  }

  lemma FromApart(items: seq<HookEntry>, pos: nat, i: nat, j: nat)
    requires i < j < |items| - 1
    ensures From(items, pos, i) != From(items, pos, j)
  {
  }

  /** The swap-with-last deletion removes exactly one key. */
  lemma DeletedView(items: seq<HookEntry>, pos: nat)
    requires DistinctTargets(items) && pos < |items|
    ensures View(Deleted(items, pos)) == View(items) - {items[pos].pTarget}
  {
    DeletedDistinct(items, pos);
    DeletedAt(items, pos);
    hide Deleted, From, To, View, DistinctTargets, FindFrom;
    var items' := Deleted(items, pos);
    var h := View(items) - {items[pos].pTarget};
    EntryInView(items, pos);
    forall i | 0 <= i < |items'|
      ensures items'[i].pTarget in h && h[items'[i].pTarget] == FlagsOf(items'[i])
    {
      EntryInView(items, From(items, pos, i));
    }
    forall t | t in h
      ensures Holds(items', t)
    {
      LookupAgrees(items, t);
      var k := FindFrom(items, t, 0);
      assert items'[To(items, pos, k)].pTarget == t;
    }
    ViewIs(items', h);
  }

  // ---------- The API on the map ----------

  function Want(g: Goal, f: Flags): bool {
    if g.All? then g.enable else f.queued
  }

  /** Each hook is left alone, or switched because it has not what is wanted. */
  ghost predicate Changes(h: map<nat, Flags>, g: Goal, h': map<nat, Flags>) {
    h'.Keys == h.Keys && forall t :: t in h ==> MayBecome(h[t], g, h'[t])
  }

  ghost predicate AllAsWanted(h: map<nat, Flags>, g: Goal, h': map<nat, Flags>) {
    forall t :: t in h ==> t in h' && h'[t].enabled == Want(g, h[t])
  }

  ghost predicate OneLeft(h: map<nat, Flags>, g: Goal, h': map<nat, Flags>) {
    exists t :: t in h && t in h' && h[t].enabled != Want(g, h[t]) && h'[t] == h[t]
  }

  /** A bulk switch: success means that all hooks are as wanted, failure that one is not. */
  ghost predicate BulkMap(h: map<nat, Flags>, g: Goal, status: Status, h': map<nat, Flags>) {
    && Changes(h, g, h')
    && if status == OK then AllAsWanted(h, g, h') else status == ERROR_MEMORY_PROTECT && OneLeft(h, g, h')
  }

  function Queueing(h: map<nat, Flags>, queue: bool): map<nat, Flags> {
    map t | t in h :: Flags(h[t].enabled, queue)
  }

  ghost predicate CreateMap(ready: bool, h: map<nat, Flags>, target: nat, status: Status, h': map<nat, Flags>) {
    && (status == OK ==> ready && target !in h && h' == h[target := Flags(false, false)])
    && (status == ERROR_ALREADY_CREATED ==> target in h)
    && (status != OK ==> h' == h)
  }

  ghost predicate RemoveMap(ready: bool, h: map<nat, Flags>, target: nat, status: Status, h': map<nat, Flags>) {
    if !ready then status == ERROR_NOT_INITIALIZED && h' == h
    else if target !in h then status == ERROR_NOT_CREATED && h' == h
    else (status == OK && h' == h - {target}) || (status == ERROR_MEMORY_PROTECT && h[target].enabled && h' == h)
  }

  ghost predicate EnableMap(ready: bool, h: map<nat, Flags>, target: nat, enable: bool, status: Status,
                            h': map<nat, Flags>) {
    if !ready then status == ERROR_NOT_INITIALIZED && h' == h
    else if target == ALL_HOOKS then BulkMap(h, All(enable), status, h')
    else if target !in h then status == ERROR_NOT_CREATED && h' == h
    else if h[target].enabled == enable then status == (if enable then ERROR_ENABLED else ERROR_DISABLED) && h' == h
    else (status == OK && h' == h[target := Flags(enable, enable)]) || (status == ERROR_MEMORY_PROTECT && h' == h)
  }

  ghost predicate QueueMap(ready: bool, h: map<nat, Flags>, target: nat, queue: bool, status: Status,
                           h': map<nat, Flags>) {
    if !ready then status == ERROR_NOT_INITIALIZED && h' == h
    else if target == ALL_HOOKS then status == OK && h' == Queueing(h, queue)
    else if target !in h then status == ERROR_NOT_CREATED && h' == h
    else status == OK && h' == h[target := Flags(h[target].enabled, queue)]
  }

  /** What a call may do to the map of hooks. */
  ghost predicate MapStep(ready: bool, h: map<nat, Flags>, call: Call, status: Status, ready': bool,
                          h': map<nat, Flags>) {
    match call
    case Initialize => h' == h && ready' == (ready || status == OK) && (ready <==> status == ERROR_ALREADY_INITIALIZED)
    case Uninitialize =>
      if !ready then status == ERROR_NOT_INITIALIZED && h' == h && !ready'
      else if status == OK then h' == map[] && !ready'
      else ready' && BulkMap(h, All(false), status, h')
    case CreateHook(target, detour) => ready' == ready && CreateMap(ready, h, target, status, h')
    case RemoveHook(target) => ready' == ready && RemoveMap(ready, h, target, status, h')
    case EnableHook(target, enable) => ready' == ready && EnableMap(ready, h, target, enable, status, h')
    case QueueHook(target, queue) => ready' == ready && QueueMap(ready, h, target, queue, status, h')
    case ApplyQueued => ready' == ready && if !ready then status == ERROR_NOT_INITIALIZED && h' == h
      else BulkMap(h, Queued, status, h')
  }

  lemma SwitchedDistinct(items: seq<HookEntry>, g: Goal, k: nat)
    requires DistinctTargets(items) && k <= |items|
    ensures DistinctTargets(SwitchedItems(items, g, k))
  {
  }

  /** The same targets at the same positions. */
  lemma SameTargetsView(items: seq<HookEntry>, items': seq<HookEntry>, t: nat)
    requires DistinctTargets(items) && DistinctTargets(items') && |items'| == |items|
    requires forall i :: 0 <= i < |items| ==> items'[i].pTarget == items[i].pTarget
    ensures t in View(items) <==> t in View(items')
    ensures t in View(items) ==> var i := FindFrom(items, t, 0);
              i < |items| && View(items)[t] == FlagsOf(items[i]) && View(items')[t] == FlagsOf(items'[i])
  {
    LookupAgrees(items, t);
    LookupAgrees(items', t);
    hide View, DistinctTargets;
    if t in View(items) {
      EntryInView(items', FindFrom(items, t, 0));
    }
    hide FindFrom;
  }

  /** What one hook makes of a bulk switch that reached position k. */
  lemma BulkFlags(items: seq<HookEntry>, g: Goal, k: nat, i: nat)
    requires k <= |items| && i < |items|
    ensures var f, f' := FlagsOf(items[i]), FlagsOf(SwitchedItems(items, g, k)[i]);
            && (f' == f || (f.enabled != Want(g, f) && f' == Flags(Want(g, f), Want(g, f))))
            && (i < k ==> f'.enabled == Want(g, f))
            && (i >= k ==> f' == f)
    ensures SwitchedItems(items, g, k)[i].pTarget == items[i].pTarget
  {
  }

  lemma BulkView(s: HookState, g: Goal, status: Status, s': HookState)
    requires DistinctTargets(s.items) && BulkStep(s, g, status, s')
    ensures BulkMap(View(s.items), g, status, View(s'.items)) && s'.ready == s.ready
  {
    hide SwitchedMem, SameMem;
    var k: nat :|
      && k <= |s.items|
      && (if k == |s.items| then status == OK else status == ERROR_MEMORY_PROTECT && NeedsSwitch(g, s.items[k]))
      && s' == s.(items := SwitchedItems(s.items, g, k), mem := s'.mem)
      && SameMem(s'.mem, SwitchedMem(s.mem, s.items, g, k));
    PrefixView(s.items, g, k);
    if k < |s.items| {
      RefusedView(s.items, g, k);
    }
    hide View, DistinctTargets, SwitchedItems, NeedsSwitch, Changes, AllAsWanted, OneLeft;
  }

  predicate MayBecome(f: Flags, g: Goal, f': Flags) {
    f' == f || (f.enabled != Want(g, f) && f' == Flags(Want(g, f), Want(g, f)))
  }

  lemma PrefixFlags(items: seq<HookEntry>, g: Goal, k: nat, t: nat)
    requires DistinctTargets(items) && k <= |items|
    ensures var h, h' := View(items), View(SwitchedItems(items, g, k));
            && (t in h <==> t in h')
            && (t in h ==> MayBecome(h[t], g, h'[t]) && (k == |items| ==> h'[t].enabled == Want(g, h[t])))
  {
    SwitchedDistinct(items, g, k);
    var items' := SwitchedItems(items, g, k);
    forall i | 0 <= i < |items|
      ensures items'[i].pTarget == items[i].pTarget
    {
      BulkFlags(items, g, k, i);
    }
    SameTargetsView(items, items', t);
    hide View, DistinctTargets, SwitchedItems, Want, NeedsSwitch;
    if t in View(items) {
      BulkFlags(items, g, k, FindFrom(items, t, 0));
    }
    hide FindFrom;
  }

  /** What a bulk switch of the first k entries does to the map. */
  lemma PrefixView(items: seq<HookEntry>, g: Goal, k: nat)
    requires DistinctTargets(items) && k <= |items|
    ensures Changes(View(items), g, View(SwitchedItems(items, g, k)))
    ensures k == |items| ==> AllAsWanted(View(items), g, View(SwitchedItems(items, g, k)))
  {
    hide View, DistinctTargets, SwitchedItems, Want;
    forall t: nat
      ensures var h, h' := View(items), View(SwitchedItems(items, g, k));
              && (t in h <==> t in h')
              && (t in h ==> MayBecome(h[t], g, h'[t]) && (k == |items| ==> h'[t].enabled == Want(g, h[t])))
    {
      PrefixFlags(items, g, k, t);
    }
  }

  lemma RefusedView(items: seq<HookEntry>, g: Goal, k: nat)
    requires DistinctTargets(items) && k < |items| && NeedsSwitch(g, items[k])
    ensures OneLeft(View(items), g, View(SwitchedItems(items, g, k)))
  {
    SwitchedDistinct(items, g, k);
    EntryInView(items, k);
    EntryInView(SwitchedItems(items, g, k), k);
    BulkFlags(items, g, k, k);
    hide View, DistinctTargets, FindFrom;
    assert items[k].pTarget in View(items);
  }

  lemma QueueAllView(items: seq<HookEntry>, queue: bool)
    requires DistinctTargets(items)
    ensures View(QueueAll(items, queue)) == Queueing(View(items), queue)
  {
    var items' := QueueAll(items, queue);
    var h := Queueing(View(items), queue);
    forall i | 0 <= i < |items'|
      ensures items'[i].pTarget in h && h[items'[i].pTarget] == FlagsOf(items'[i])
    {
      EntryInView(items, i);
    }
    forall t | t in h
      ensures Holds(items', t)
    {
      LookupAgrees(items, t);
      assert items'[FindFrom(items, t, 0)].pTarget == t;
    }
    ViewIs(items', h);
  }

  lemma EmptyView()
    ensures View([]) == map[]
  {
  }

  lemma CreateRefinesMap(w: World, s: HookState, target: nat, detour: nat, status: Status, s': HookState)
    requires DistinctTargets(s.items) && CreateStep(w, s, target, detour, status, s')
    ensures CreateMap(s.ready, View(s.items), target, status, View(s'.items)) && s'.ready == s.ready
  {
    LookupAgrees(s.items, target);
    hide View, DistinctTargets, HeapOnly, SlotOk, EntryOk, Unhookable, FindFrom, Grown, Read;
    if status == OK {
      var e, b :|
        && NewEntry(w, s, target, detour, e, b)
        && s' == HookState(true, true, Grown(s), s.items + [e], s.builds + [b], s.live + iset{e.pTrampoline}, s'.mem)
        && HeapOnly(w, s, s'.mem)
        && SlotOk(w.arch, s'.mem, e, b);
      AddedView(s.items, e);
    }
  }

  lemma RemoveRefinesMap(w: World, s: HookState, target: nat, status: Status, s': HookState)
    requires DistinctTargets(s.items) && RemoveStep(w, s, target, status, s')
    ensures RemoveMap(s.ready, View(s.items), target, status, View(s'.items)) && s'.ready == s.ready
  {
    LookupAgrees(s.items, target);
    hide View, DistinctTargets, FindFrom, Deleted, HeapOnly, Write, Shrinks;
    var pos := FindFrom(s.items, target, 0);
    if s.ready && pos < |s.items| {
      DeletedView(s.items, pos);
    }
  }

  lemma SwitchRefinesMap(s: HookState, pos: nat, enable: bool, status: Status, s': HookState)
    requires DistinctTargets(s.items) && pos < |s.items| && SwitchStep(s, pos, enable, status, s')
    ensures s'.ready == s.ready
    ensures || (status == OK && View(s'.items) == View(s.items)[s.items[pos].pTarget := Flags(enable, enable)])
            || (status == ERROR_MEMORY_PROTECT && View(s'.items) == View(s.items))
  {
    UpdatedView(s.items, pos, Switched(s.items[pos], enable));
    hide View, DistinctTargets, SameMem, Write;
  }

  lemma EnableRefinesMap(s: HookState, target: nat, enable: bool, status: Status, s': HookState)
    requires DistinctTargets(s.items) && EnableStep(s, target, enable, status, s')
    ensures EnableMap(s.ready, View(s.items), target, enable, status, View(s'.items)) && s'.ready == s.ready
  {
    LookupAgrees(s.items, target);
    hide View, DistinctTargets, SwitchStep, BulkStep, BulkMap;
    var pos := FindFrom(s.items, target, 0);
    hide FindFrom;
    if s.ready {
      if target == ALL_HOOKS {
        BulkView(s, All(enable), status, s');
      } else if pos < |s.items| && s.items[pos].isEnabled != enable {
        SwitchRefinesMap(s, pos, enable, status, s');
      }
    }
  }

  lemma QueueRefinesMap(s: HookState, target: nat, queue: bool, status: Status, s': HookState)
    requires DistinctTargets(s.items) && QueueStep(s, target, queue, status, s')
    ensures QueueMap(s.ready, View(s.items), target, queue, status, View(s'.items)) && s'.ready == s.ready
  {
    LookupAgrees(s.items, target);
    var pos := FindFrom(s.items, target, 0);
    hide View, DistinctTargets, FindFrom, Queueing, QueueAll;
    if target == ALL_HOOKS {
      QueueAllView(s.items, queue);
    } else if pos < |s.items| {
      UpdatedView(s.items, pos, s.items[pos].(queueEnable := queue));
    }
  }

  /** Every API call is the corresponding step on the map. */
  lemma StepRefinesMap(w: World, s: HookState, call: Call, status: Status, s': HookState)
    requires Inv(w, s) && ApiStep(w, s, call, status, s')
    ensures MapStep(s.ready, View(s.items), call, status, s'.ready, View(s'.items))
  {
    InvDistinct(w, s);
    hide Inv, View, DistinctTargets, CreateStep, RemoveStep, EnableStep, QueueStep, CreateMap, RemoveMap, EnableMap,
         QueueMap, SwitchedMem, SameMem, BulkStep, BulkMap;
    match call {
      case Initialize =>
      case Uninitialize =>
        if s.ready && status != OK {
          BulkView(s, All(false), status, s');
        }
        EmptyView();
      case CreateHook(target, detour) => CreateRefinesMap(w, s, target, detour, status, s');
      case RemoveHook(target) => RemoveRefinesMap(w, s, target, status, s');
      case EnableHook(target, enable) => EnableRefinesMap(s, target, enable, status, s');
      case QueueHook(target, queue) => QueueRefinesMap(s, target, queue, status, s');
      case ApplyQueued =>
        if s.ready {
          BulkView(s, Queued, status, s');
        }
    }
  }
}
