/** hook.c under concurrency: API calls from any number of threads keep the invariant of the hook engine. */
module ConcurrentHooks {
  import opened Bytes
  import opened Cpu
  import opened TrampolineSpec
  import opened HookSpec
  import opened HookRuns
  import opened HookMap
  import opened SpinLock

  /** The functions a program hooks: each can be hooked, and they keep clear of each other. */
  ghost predicate Hookable(w: World, targets: iset<nat>) {
    && (forall t :: t in targets ==> TargetOk(w, t))
    && forall t, u :: t in targets && u in targets && t != u ==> t + 2 * JMP_REL <= u || u + 2 * JMP_REL <= t
  }

  /** The call creates hooks on these functions only. */
  predicate CallOk(w: World, targets: iset<nat>, c: Call) {
    c.CreateHook? ==> c.target in targets && c.detour < Modulus(w.arch)
  }

  ghost predicate Within(s: HookState, targets: iset<nat>) {
    forall i :: 0 <= i < |s.items| ==> s.items[i].pTarget in targets
  }

  ghost predicate Good(w: World, targets: iset<nat>, s: HookState) {
    Inv(w, s) && Within(s, targets)
  }

  lemma CallAdmissible(w: World, targets: iset<nat>, s: HookState, c: Call)
    requires Hookable(w, targets) && Within(s, targets) && CallOk(w, targets, c)
    ensures Admissible(w, s, c)
  {
    hide TargetOk;
  }

  lemma WithinView(s: HookState, targets: iset<nat>)
    requires DistinctTargets(s.items)
    ensures Within(s, targets) <==> forall t :: t in View(s.items) ==> t in targets
  {
    forall i | 0 <= i < |s.items|
      ensures s.items[i].pTarget in View(s.items)
    {
      EntryInView(s.items, i);
    }
    forall t | t in View(s.items)
      ensures HookMap.Holds(s.items, t)
    {
      LookupAgrees(s.items, t);
    }
    hide View, DistinctTargets;
  }

  /** A call keeps the table within the functions the program hooks. */
  lemma StepStaysWithin(w: World, targets: iset<nat>, s: HookState, c: Call, status: Status, s': HookState)
    requires Inv(w, s) && Inv(w, s') && Within(s, targets) && CallOk(w, targets, c) && ApiStep(w, s, c, status, s')
    ensures Within(s', targets)
  {
    hide Inv, Within, View, DistinctTargets, ApiStep;
    InvDistinct(w, s);
    InvDistinct(w, s');
    StepRefinesMap(w, s, c, status, s');
    WithinView(s, targets);
    WithinView(s', targets);
  }

  /** Run without interference from a good state, the body of a call takes a step of the state machine. */
  ghost predicate BodiesCorrect<L(!new)>(api: Api<HookState, L, Call, Status>, w: World, targets: iset<nat>) {
    forall c: Call, s: HookState, n: nat :: Good(w, targets, s) && CallOk(w, targets, c) ==>
      BodyCorrect(api, w, c, s, n)
  }

  ghost predicate BodyCorrect<L>(api: Api<HookState, L, Call, Status>, w: World, c: Call, s: HookState, n: nat) {
    var (s', l) := Steps(api, c, s, n);
    api.done(l).Some? ==> ApiStep(w, s, c, api.done(l).value, s')
  }

  lemma {:induction false} SerialKeepsInv<L(!new)>(api: Api<HookState, L, Call, Status>, w: World, targets: iset<nat>,
                                                   log: seq<Entry<Call>>, s0: HookState)
    requires DecoderSane(w.arch, w.decode) && Hookable(w, targets) && BodiesCorrect(api, w, targets)
    requires Good(w, targets, s0) && Complete(api, log, s0)
    requires forall i :: 0 <= i < |log| ==> CallOk(w, targets, log[i].call)
    ensures Good(w, targets, Serial(api, log, s0))
  {
    hide Inv, ApiStep, DecoderSane, Hookable, CallOk, Within, Admissible, Steps;
    if log != [] {
      var front, e := log[..|log| - 1], log[|log| - 1];
      SerialKeepsInv(api, w, targets, front, s0);
      var s := Serial(api, front, s0);
      assert BodyCorrect(api, w, e.call, s, e.steps);
      var (s', l) := Steps(api, e.call, s, e.steps);
      var status := api.done(l).value;
      CallAdmissible(w, targets, s, e.call);
      StepKeepsInv(w, s, e.call, status, s');
      StepStaysWithin(w, targets, s, e.call, status, s');
    }
  }

  lemma {:induction false} LoggedCalls(log: seq<Entry<Call>>, i: nat)
    requires i < |log|
    ensures log[i].call in CallsOf(log, log[i].thread)
  {
    if i < |log| - 1 {
      LoggedCalls(log[..|log| - 1], i);
    }
  }

  /**
   Whatever the schedule of the threads, whenever the lock is free the invariant of the hook engine
   holds: the code is the original code with the patches of the enabled hooks, and the slots in use
   are the trampolines of the table.
   */
  lemma ConcurrentCallsKeepInv<L(!new)>(api: Api<HookState, L, Call, Status>, w: World, targets: iset<nat>,
                                        y: System<HookState, L, Call, Status>,
                                        s0: HookState, program: map<nat, seq<Call>>, schedule: seq<nat>)
    requires DecoderSane(w.arch, w.decode) && Hookable(w, targets) && BodiesCorrect(api, w, targets)
    requires Initial(w, s0) && Starts(y, s0, program)
    requires forall t, i :: t in program && 0 <= i < |program[t]| ==> CallOk(w, targets, program[t][i])
    requires !Run(api, y, schedule).isLocked
    ensures Inv(w, Run(api, y, schedule).shared)
  {
    EveryScheduleIsSerial(api, y, s0, program, schedule);
    InitialInv(w, s0);
    hide Inv, DecoderSane, Hookable, BodiesCorrect, Run, Serial, CallOk, Complete;
    var z := Run(api, y, schedule);
    forall i | 0 <= i < |z.log|
      ensures CallOk(w, targets, z.log[i].call)
    {
      LoggedProgrammed(api, z, s0, program, i);
      var t, j :| t in program && 0 <= j < |program[t]| && program[t][j] == z.log[i].call;
    }
    SerialKeepsInv(api, w, targets, z.log, s0);
  }

  /** Every acquisition is for a call of some thread's program. */
  lemma LoggedProgrammed<L>(api: Api<HookState, L, Call, Status>, z: System<HookState, L, Call, Status>, s0: HookState,
                            program: map<nat, seq<Call>>, i: nat)
    requires Serialised(api, z, s0, program) && i < |z.log|
    ensures exists t, j :: t in program && 0 <= j < |program[t]| && program[t][j] == z.log[i].call
  {
    var t := z.log[i].thread;
    LoggedCalls(z.log, i);
    hide Serial, Complete, Exclusive, AllAnswered;
    assert InOrder(z, program, t);
    var done := CallsOf(z.log, t);
    var j :| 0 <= j < |done| && done[j] == z.log[i].call;
    assert program[t][j] == done[j];
  }

  // ---------- Bodies that meet the assumption ----------

  /** What a body remembers: nothing yet, how far a switch of many hooks has come, or the result. */
  datatype Local = Start(call: Call) | Switching(call: Call, goal: Goal, k: nat) | Over(status: Status)

  /** The calls that switch many hooks, one after the other. */
  function GoalOf(c: Call): Option<Goal> {
    match c
    case Uninitialize => Some(All(false))
    case EnableHook(target, enable) => if target == ALL_HOOKS then Some(All(enable)) else None
    case ApplyQueued => Some(Queued)
    case _ => None
  }

  ghost predicate Possible(w: World, s: HookState, c: Call, r: (Status, HookState)) {
    ApiStep(w, s, c, r.0, r.1)
  }

  /** How a call that may end in several ways ends. */
  type Choice = (HookState, Call) -> (Status, HookState)

  /** The outcome picked, if the call may have it, and else any that it may have. */
  ghost function Outcome(w: World, pick: Choice, s: HookState, c: Call): (Status, HookState) {
    if Possible(w, s, c, pick(s, c)) then pick(s, c)
    else if exists r :: Possible(w, s, c, r) then var r :| Possible(w, s, c, r); r
    else (OK, s)
  }

  /** One window is written, or its protection cannot be changed; behind the last hook the call is over. */
  ghost function SwitchOne(protect: int -> bool, s: HookState, c: Call, g: Goal, k: nat): (HookState, Local) {
    if k >= |s.items| then (if c.Uninitialize? then HookState(false, false, 0, [], [], iset{}, s.mem) else s, Over(OK))
    else
      var e := s.items[k];
      if !NeedsSwitch(g, e) then (s, Switching(c, g, k + 1))
      else if !protect(PatchAddr(e)) then (s, Over(ERROR_MEMORY_PROTECT))
      else
        (s.(items := s.items[k := Switched(e, Wanted(g, e))],
            mem := Write(s.mem, PatchAddr(e), WindowBytes(e, Wanted(g, e)))),
         Switching(c, g, k + 1))
  }

  ghost function BodyStep(w: World, pick: Choice, protect: int -> bool, s: HookState, l: Local): (HookState, Local) {
    match l
    case Start(c) =>
      if s.ready && GoalOf(c).Some? then (s, Switching(c, GoalOf(c).value, 0))
      else var r := Outcome(w, pick, s, c); (r.1, Over(r.0))
    case Switching(c, g, k) => SwitchOne(protect, s, c, g, k)
    case Over(_) => (s, l)
  }

  /** Bodies that switch many hooks window by window and do everything else in one step, as picked. */
  ghost function Bodies(w: World, pick: Choice, protect: int -> bool): Api<HookState, Local, Call, Status> {
    Api(c => Start(c), (s, l) => BodyStep(w, pick, protect, s, l),
        (l: Local) => if l.Over? then Some(l.status) else None)
  }

  lemma PossibleBy(w: World, pick: Choice, s: HookState, c: Call, status: Status, s': HookState)
    requires ApiStep(w, s, c, status, s')
    ensures ApiStep(w, s, c, Outcome(w, pick, s, c).0, Outcome(w, pick, s, c).1)
  {
    hide ApiStep;
    assert Possible(w, s, c, (status, s'));
  }

  /** Every call that is not a switch of many hooks has an outcome. */
  lemma CallHasOutcome(w: World, pick: Choice, s: HookState, c: Call)
    requires TableOk(s) && (s.ready ==> GoalOf(c) == None)
    ensures ApiStep(w, s, c, Outcome(w, pick, s, c).0, Outcome(w, pick, s, c).1)
  {
    match c {
      case Initialize => InitializePossible(w, pick, s);
      case CreateHook(target, detour) => CreatePossible(w, pick, s, target, detour);
      case RemoveHook(target) => RemovePossible(w, pick, s, target);
      case EnableHook(target, enable) => EnablePossible(w, pick, s, target, enable);
      case QueueHook(target, enable) => QueuePossible(w, pick, s, target, enable);
      case _ => PossibleBy(w, pick, s, c, ERROR_NOT_INITIALIZED, s);
    }
    hide TableOk, ApiStep, Outcome;
  }

  lemma InitializePossible(w: World, pick: Choice, s: HookState)
    ensures ApiStep(w, s, Initialize, Outcome(w, pick, s, Initialize).0, Outcome(w, pick, s, Initialize).1)
  {
    if s.ready {
      PossibleBy(w, pick, s, Initialize, ERROR_ALREADY_INITIALIZED, s);
    } else {
      PossibleBy(w, pick, s, Initialize, OK, s.(ready := true));
    }
    hide Outcome, ApiStep;
  }

  lemma CreatePossible(w: World, pick: Choice, s: HookState, target: nat, detour: nat)
    ensures var c := CreateHook(target, detour); ApiStep(w, s, c, Outcome(w, pick, s, c).0, Outcome(w, pick, s, c).1)
  {
    var status :=
      if !s.ready then ERROR_NOT_INITIALIZED
      else if !w.executable(target) || !w.executable(detour) then ERROR_NOT_EXECUTABLE
      else if FindFrom(s.items, target, 0) < |s.items| then ERROR_ALREADY_CREATED
      else ERROR_MEMORY_ALLOC;
    PossibleBy(w, pick, s, CreateHook(target, detour), status, s);
    hide Outcome, ApiStep;
  }

  lemma RemovePossible(w: World, pick: Choice, s: HookState, target: nat)
    requires TableOk(s)
    ensures var c := RemoveHook(target); ApiStep(w, s, c, Outcome(w, pick, s, c).0, Outcome(w, pick, s, c).1)
  {
    var c, pos := RemoveHook(target), FindFrom(s.items, target, 0);
    if !s.ready {
      PossibleBy(w, pick, s, c, ERROR_NOT_INITIALIZED, s);
    } else if pos == |s.items| {
      PossibleBy(w, pick, s, c, ERROR_NOT_CREATED, s);
    } else if s.items[pos].isEnabled {
      PossibleBy(w, pick, s, c, ERROR_MEMORY_PROTECT, s);
    } else {
      var s' := s.(items := Deleted(s.items, pos), builds := Deleted(s.builds, pos),
                   live := s.live - iset{s.items[pos].pTrampoline});
      PossibleBy(w, pick, s, c, OK, s');
    }
    hide Outcome, ApiStep;
  }

  lemma EnablePossible(w: World, pick: Choice, s: HookState, target: nat, enable: bool)
    requires s.ready ==> target != ALL_HOOKS
    ensures var c := EnableHook(target, enable); ApiStep(w, s, c, Outcome(w, pick, s, c).0, Outcome(w, pick, s, c).1)
  {
    var pos := FindFrom(s.items, target, 0);
    var status :=
      if !s.ready then ERROR_NOT_INITIALIZED
      else if pos == |s.items| then ERROR_NOT_CREATED
      else if s.items[pos].isEnabled == enable then (if enable then ERROR_ENABLED else ERROR_DISABLED)
      else ERROR_MEMORY_PROTECT;
    PossibleBy(w, pick, s, EnableHook(target, enable), status, s);
    hide Outcome, ApiStep;
  }

  lemma QueuePossible(w: World, pick: Choice, s: HookState, target: nat, enable: bool)
    ensures var c := QueueHook(target, enable); ApiStep(w, s, c, Outcome(w, pick, s, c).0, Outcome(w, pick, s, c).1)
  {
    var c, pos := QueueHook(target, enable), FindFrom(s.items, target, 0);
    if !s.ready {
      PossibleBy(w, pick, s, c, ERROR_NOT_INITIALIZED, s);
    } else if target == ALL_HOOKS {
      PossibleBy(w, pick, s, c, OK, s.(items := QueueAll(s.items, enable)));
    } else if pos == |s.items| {
      PossibleBy(w, pick, s, c, ERROR_NOT_CREATED, s);
    } else {
      PossibleBy(w, pick, s, c, OK, s.(items := s.items[pos := s.items[pos].(queueEnable := enable)]));
    }
    hide Outcome, ApiStep;
  }

  /** The state with the first k hooks switched. */
  ghost function Partly(s: HookState, g: Goal, k: nat): HookState
    requires k <= |s.items|
  {
    s.(items := SwitchedItems(s.items, g, k), mem := SwitchedMem(s.mem, s.items, g, k))
  }

  /** Where the body of c, started in s, is after n steps. */
  ghost predicate Progress(w: World, c: Call, s: HookState, n: nat, s': HookState, l: Local) {
    match l
    case Start(c') => n == 0 && c' == c && s' == s
    case Switching(c', g, k) =>
      n == k + 1 && c' == c && s.ready && GoalOf(c) == Some(g) && k <= |s.items| && s' == Partly(s, g, k)
    case Over(status) => ApiStep(w, s, c, status, s')
  }

  lemma SwitchProgress(w: World, protect: int -> bool, c: Call, s: HookState, g: Goal, k: nat)
    requires s.ready && GoalOf(c) == Some(g) && k <= |s.items|
    ensures var r := SwitchOne(protect, Partly(s, g, k), c, g, k); Progress(w, c, s, k + 2, r.0, r.1)
  {
    if k == |s.items| {
      SwitchEnds(w, c, s, g, k, OK);
    } else if NeedsSwitch(g, s.items[k]) && !protect(PatchAddr(s.items[k])) {
      SwitchEnds(w, c, s, g, k, ERROR_MEMORY_PROTECT);
    } else {
      SwitchGoesOn(protect, c, s, g, k);
    }
    hide ApiStep, Partly, NeedsSwitch;
  }

  lemma SwitchGoesOn(protect: int -> bool, c: Call, s: HookState, g: Goal, k: nat)
    requires k < |s.items| && (NeedsSwitch(g, s.items[k]) ==> protect(PatchAddr(s.items[k])))
    ensures SwitchOne(protect, Partly(s, g, k), c, g, k) == (Partly(s, g, k + 1), Switching(c, g, k + 1))
  {
    SwitchedNext(s.items, g, k);
    hide SwitchedItems, Write, WindowBytes, Switched;
  }

  /** A switch that ends after k hooks, at the end of the table or at a window that cannot be written. */
  lemma SwitchEnds(w: World, c: Call, s: HookState, g: Goal, k: nat, status: Status)
    requires s.ready && GoalOf(c) == Some(g) && k <= |s.items|
    requires if k == |s.items| then status == OK else status == ERROR_MEMORY_PROTECT && NeedsSwitch(g, s.items[k])
    ensures var now := Partly(s, g, k);
            var s' := if status == OK && c.Uninitialize? then HookState(false, false, 0, [], [], iset{}, now.mem)
              else now;
            ApiStep(w, s, c, status, s')
  {
    hide SwitchedItems, SwitchedMem, NeedsSwitch;
    assert BulkStep(s, g, status, Partly(s, g, k));
  }

  lemma {:induction false} BodyProgress(w: World, pick: Choice, protect: int -> bool, c: Call, s: HookState, n: nat)
    requires TableOk(s)
    ensures var (s', l) := Steps(Bodies(w, pick, protect), c, s, n); Progress(w, c, s, n, s', l)
  {
    hide TableOk, ApiStep, Partly, SwitchOne, Outcome;
    if n > 0 {
      BodyProgress(w, pick, protect, c, s, n - 1);
      var (s1, l1) := Steps(Bodies(w, pick, protect), c, s, n - 1);
      match l1 {
        case Start(c') =>
          if s.ready && GoalOf(c).Some? {
            NothingSwitched(s, GoalOf(c).value);
          } else {
            CallHasOutcome(w, pick, s, c);
          }
        case Switching(c', g, k) => SwitchProgress(w, protect, c, s, g, k);
        case Over(_) =>
      }
    }
  }

  lemma NothingSwitched(s: HookState, g: Goal)
    ensures Partly(s, g, 0) == s
  {
    assert SwitchedItems(s.items, g, 0) == s.items;
  }

  /** These bodies meet the assumption, whatever is picked, and every one ends after at most |items| + 2 steps. */
  lemma BodiesMeetAssumption(w: World, pick: Choice, protect: int -> bool, targets: iset<nat>)
    ensures BodiesCorrect(Bodies(w, pick, protect), w, targets)
    ensures forall c: Call, s: HookState :: TableOk(s) ==> Ends(w, pick, protect, c, s)
  {
    hide Bodies, Steps;
    forall c: Call, s: HookState, n: nat | Good(w, targets, s) && CallOk(w, targets, c)
      ensures BodyCorrect(Bodies(w, pick, protect), w, c, s, n)
    {
      BodyIsStep(w, pick, protect, c, s, n);
    }
    forall c: Call, s: HookState | TableOk(s)
      ensures Ends(w, pick, protect, c, s)
    {
      BodyEnds(w, pick, protect, c, s);
    }
  }

  ghost predicate Ends(w: World, pick: Choice, protect: int -> bool, c: Call, s: HookState) {
    var api := Bodies(w, pick, protect);
    api.done(Steps(api, c, s, |s.items| + 2).1).Some?
  }

  lemma BodyIsStep(w: World, pick: Choice, protect: int -> bool, c: Call, s: HookState, n: nat)
    requires TableOk(s)
    ensures BodyCorrect(Bodies(w, pick, protect), w, c, s, n)
  {
    BodyProgress(w, pick, protect, c, s, n);
    hide Steps, ApiStep, TableOk;
  }

  lemma BodyEnds(w: World, pick: Choice, protect: int -> bool, c: Call, s: HookState)
    requires TableOk(s)
    ensures Ends(w, pick, protect, c, s)
  {
    BodyProgress(w, pick, protect, c, s, |s.items| + 2);
    hide Steps, ApiStep, TableOk;
  }

  /**
   Bulk switches whose windows are written one by one, whatever the other threads do in between: nothing is
   assumed.
   */
  lemma InterleavedSwitchesKeepInv(w: World, pick: Choice, protect: int -> bool, targets: iset<nat>,
                                   y: System<HookState, Local, Call, Status>, s0: HookState,
                                   program: map<nat, seq<Call>>, schedule: seq<nat>)
    requires DecoderSane(w.arch, w.decode) && Hookable(w, targets)
    requires Initial(w, s0) && Starts(y, s0, program)
    requires forall t, i :: t in program && 0 <= i < |program[t]| ==> CallOk(w, targets, program[t][i])
    ensures var z := Run(Bodies(w, pick, protect), y, schedule); !z.isLocked ==> Inv(w, z.shared)
  {
    hide Inv, DecoderSane, Hookable, BodiesCorrect, Bodies, Run, Initial, CallOk;
    BodiesMeetAssumption(w, pick, protect, targets);
    if !Run(Bodies(w, pick, protect), y, schedule).isLocked {
      ConcurrentCallsKeepInv(Bodies(w, pick, protect), w, targets, y, s0, program, schedule);
    }
  }
}
