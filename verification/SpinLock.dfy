/**
 hook.c: API calls from several threads compete for a flag with compare-and-exchange. Whatever the
 schedule, at most one thread is inside an API body, and the outcome is that of running the calls
 one after the other in the order in which they got the lock.
 */
module SpinLock {
  import opened Bytes

  /**
   The bodies of the API calls, cut into steps that are atomic by themselves: S is what they share,
   L the locals of one call, C the calls, R their results. A call is over when it has a result;
   whichever return statement gave it, what follows is the __finally block.
   */
  datatype Api<!S, !L, !C, !R> = Api(enter: C -> L, step: (S, L) -> (S, L), done: L -> Option<R>)

  /** Where a thread is: outside, in EnterSpinLock, or between EnterSpinLock and LeaveSpinLock. */
  datatype Pc<+L, +C> = Away | Spinning(call: C) | Inside(call: C, locals: L)

  /** The n-th acquisition of the lock: by whom, for which call, and how many steps of its body have been taken. */
  datatype Entry<+C> = Entry(thread: nat, call: C, steps: nat)

  datatype System<+S, +L, +C, +R> = System(
    shared: S, isLocked: bool, pcs: map<nat, Pc<L, C>>, todo: map<nat, seq<C>>, results: map<nat, seq<R>>,
      log: seq<Entry<C>>)

  ghost predicate Threads<S, L, C, R>(y: System<S, L, C, R>) {
    y.todo.Keys == y.pcs.Keys && y.results.Keys == y.pcs.Keys
  }

  /** Thread t does one atomic step. */
  function Act<S, L, C, R>(api: Api<S, L, C, R>, y: System<S, L, C, R>, t: nat): System<S, L, C, R>
    requires Threads(y)
  {
    if t !in y.pcs then y
    else
      match y.pcs[t]
      case Away =>
        if y.todo[t] == [] then y
        else y.(pcs := y.pcs[t := Spinning(y.todo[t][0])], todo := y.todo[t := y.todo[t][1..]])
      case Spinning(c) =>
        // One compare-and-exchange: the flag is tested and set in a single step.
        if y.isLocked then y
        else y.(isLocked := true, pcs := y.pcs[t := Inside(c, api.enter(c))], log := y.log + [Entry(t, c, 0)])
      case Inside(c, l) =>
        match api.done(l)
        case Some(r) => y.(isLocked := false, pcs := y.pcs[t := Away], results := y.results[t := y.results[t] + [r]])
        case None =>
          var (s', l') := api.step(y.shared, l);
          y.(shared := s', pcs := y.pcs[t := Inside(c, l')], log := Stepped(y.log))
  }

  /** One more step of the last acquisition. */
  function Stepped<C>(log: seq<Entry<C>>): seq<Entry<C>> {
    if log == [] then log
    else var e := log[|log| - 1]; log[..|log| - 1] + [e.(steps := e.steps + 1)]
  }

  /** The threads named by the schedule act one after the other. */
  function Run<S, L, C, R>(api: Api<S, L, C, R>, y: System<S, L, C, R>, schedule: seq<nat>): (r: System<S, L, C, R>)
    requires Threads(y)
    ensures Threads(r)
  {
    if schedule == [] then y else Act(api, Run(api, y, schedule[..|schedule| - 1]), schedule[|schedule| - 1])
  }

  // ---------- Serial execution ----------

  /** The first n steps of the call c from shared state s. */
  function Steps<S, L, C, R>(api: Api<S, L, C, R>, c: C, s: S, n: nat): (S, L) {
    if n == 0 then (s, api.enter(c))
    else var (s1, l1) := Steps(api, c, s, n - 1); api.step(s1, l1)
  }

  /** The calls of the log, one after the other without interference. */
  function Serial<S, L, C, R>(api: Api<S, L, C, R>, log: seq<Entry<C>>, s0: S): S {
    if log == [] then s0
    else var e := log[|log| - 1]; Steps(api, e.call, Serial(api, log[..|log| - 1], s0), e.steps).0
  }

  function LastLocals<S, L, C, R>(api: Api<S, L, C, R>, log: seq<Entry<C>>, s0: S): L
    requires log != []
  {
    var e := log[|log| - 1]; Steps(api, e.call, Serial(api, log[..|log| - 1], s0), e.steps).1
  }

  /** All calls of the log run to their end. */
  ghost predicate Complete<S, L, C, R>(api: Api<S, L, C, R>, log: seq<Entry<C>>, s0: S) {
    log != [] ==> Complete(api, log[..|log| - 1], s0) && api.done(LastLocals(api, log, s0)).Some?
  }

  /** The calls that thread t made, in log order. */
  function CallsOf<C>(log: seq<Entry<C>>, t: nat): seq<C> {
    if log == [] then []
    else var e := log[|log| - 1]; CallsOf(log[..|log| - 1], t) + if e.thread == t then [e.call] else []
  }

  /** What the serial execution returns to thread t. */
  function ResultsOf<S, L, C, R>(api: Api<S, L, C, R>, log: seq<Entry<C>>, s0: S, t: nat): seq<R> {
    if log == [] then []
    else
      var r := api.done(LastLocals(api, log, s0));
      ResultsOf(api, log[..|log| - 1], s0, t) + if log[|log| - 1].thread == t && r.Some? then [r.value] else []
  }

  // ---------- The invariant of every schedule ----------

  /** Calls that have got the lock and are not over: the last one of the log while the lock is held. */
  function Finished<S, L, C, R>(y: System<S, L, C, R>): seq<Entry<C>>
  {
    if y.isLocked && y.log != [] then y.log[..|y.log| - 1] else y.log
  }

  ghost predicate Holder<S, L, C, R>(y: System<S, L, C, R>, t: nat) {
    t in y.pcs && y.pcs[t].Inside?
  }

  /** The lock is taken exactly when a thread is inside, and then by the thread of the last acquisition alone. */
  ghost predicate Exclusive<S, L, C, R>(api: Api<S, L, C, R>, y: System<S, L, C, R>, s0: S) {
    if y.isLocked then
      && y.log != []
      && var e := y.log[|y.log| - 1];
         && e.thread in y.pcs && y.pcs[e.thread] == Inside(e.call, LastLocals(api, y.log, s0))
         && forall t :: Holder(y, t) ==> t == e.thread
    else forall t :: !Holder(y, t)
  }

  function Pending<L, C>(pc: Pc<L, C>): seq<C> {
    if pc.Spinning? then [pc.call] else []
  }

  /** The calls of thread t have been, are being, or will be made in the order of its program. */
  ghost predicate InOrder<S, L, C, R>(y: System<S, L, C, R>, program: map<nat, seq<C>>, t: nat)
    requires t in y.pcs && t in y.todo && t in program
  {
    CallsOf(y.log, t) + Pending(y.pcs[t]) + y.todo[t] == program[t]
  }

  ghost predicate Answered<S, L, C, R>(api: Api<S, L, C, R>, y: System<S, L, C, R>, s0: S, t: nat)
    requires t in y.results
  {
    y.results[t] == ResultsOf(api, Finished(y), s0, t)
  }

  ghost predicate AllInOrder<S, L, C, R>(y: System<S, L, C, R>, program: map<nat, seq<C>>)
    requires Threads(y)
  {
    && y.pcs.Keys == program.Keys
    && (forall i :: 0 <= i < |y.log| ==> y.log[i].thread in y.pcs)
    && forall t :: t in program ==> InOrder(y, program, t)
  }

  ghost predicate AllAnswered<S, L, C, R>(api: Api<S, L, C, R>, y: System<S, L, C, R>, s0: S) {
    forall t :: t in y.results ==> Answered(api, y, s0, t)
  }

  ghost predicate Serialised<S, L, C, R>(api: Api<S, L, C, R>, y: System<S, L, C, R>, s0: S,
                                         program: map<nat, seq<C>>) {
    && Threads(y)
    && y.shared == Serial(api, y.log, s0)
    && Complete(api, Finished(y), s0)
    && Exclusive(api, y, s0)
    && AllInOrder(y, program)
    && AllAnswered(api, y, s0)
  }

  /** Before any call: nobody is inside, and each thread has its program before it. */
  ghost predicate Starts<S, L, C, R>(y: System<S, L, C, R>, s0: S, program: map<nat, seq<C>>) {
    && Threads(y) && y.pcs.Keys == program.Keys && y.shared == s0 && !y.isLocked && y.log == []
    && forall t :: t in program ==> y.pcs[t] == Away && y.todo[t] == program[t] && y.results[t] == []
  }

  lemma Started<S, L, C, R>(api: Api<S, L, C, R>, y: System<S, L, C, R>, s0: S, program: map<nat, seq<C>>)
    requires Starts(y, s0, program)
    ensures Serialised(api, y, s0, program)
  {
  }

  lemma ActKeeps<S, L, C, R>(api: Api<S, L, C, R>, y: System<S, L, C, R>, s0: S, program: map<nat, seq<C>>, t: nat)
    requires Serialised(api, y, s0, program) && t in y.pcs
    ensures Serialised(api, Act(api, y, t), s0, program)
  {
    hide Serial, Complete, Exclusive, AllInOrder, AllAnswered, Act, Finished;
    ActThreads(api, y, t);
    SharedKept(api, y, s0, t);
    CompleteKept(api, y, s0, t);
    ExclusiveKept(api, y, s0, t);
    OrderKept(api, y, program, t);
    AnswersKept(api, y, s0, t);
  }

  lemma ActThreads<S, L, C, R>(api: Api<S, L, C, R>, y: System<S, L, C, R>, t: nat)
    requires Threads(y)
    ensures Threads(Act(api, y, t))
  {
  }

  lemma AppendedLog<S, L, C, R>(api: Api<S, L, C, R>, log: seq<Entry<C>>, t: nat, c: C, s0: S)
    ensures var log' := log + [Entry(t, c, 0)];
            log'[..|log|] == log && Serial(api, log', s0) == Serial(api, log, s0) &&
              LastLocals(api, log', s0) == api.enter(c)
  {
    assert (log + [Entry(t, c, 0)])[..|log|] == log;
  }

  lemma SharedKept<S, L, C, R>(api: Api<S, L, C, R>, y: System<S, L, C, R>, s0: S, t: nat)
    requires Threads(y) && t in y.pcs && Exclusive(api, y, s0) && y.shared == Serial(api, y.log, s0)
    ensures Act(api, y, t).shared == Serial(api, Act(api, y, t).log, s0)
  {
    match y.pcs[t] {
      case Away =>
      case Spinning(c) => AppendedLog(api, y.log, t, c, s0);
      case Inside(c, l) =>
        assert Holder(y, t);
        SteppedSerial(api, y.log, s0);
    }
  }

  lemma CompleteKept<S, L, C, R>(api: Api<S, L, C, R>, y: System<S, L, C, R>, s0: S, t: nat)
    requires Threads(y) && t in y.pcs && Exclusive(api, y, s0) && Complete(api, Finished(y), s0)
    ensures Complete(api, Finished(Act(api, y, t)), s0)
  {
    hide Serial, LastLocals;
    match y.pcs[t] {
      case Away =>
      case Spinning(c) => AppendedLog(api, y.log, t, c, s0);
      case Inside(c, l) =>
        assert Holder(y, t);
        SteppedSerial(api, y.log, s0);
    }
  }

  lemma ExclusiveKept<S, L, C, R>(api: Api<S, L, C, R>, y: System<S, L, C, R>, s0: S, t: nat)
    requires Threads(y) && t in y.pcs && Exclusive(api, y, s0) && y.shared == Serial(api, y.log, s0)
    ensures Exclusive(api, Act(api, y, t), s0)
  {
    hide Serial, LastLocals;
    var z := Act(api, y, t);
    assert forall u :: u != t ==> (Holder(z, u) <==> Holder(y, u));
    match y.pcs[t] {
      case Away => assert !Holder(z, t);
      case Spinning(c) => AppendedLog(api, y.log, t, c, s0);
      case Inside(c, l) =>
        assert Holder(y, t);
        SteppedSerial(api, y.log, s0);
        assert api.done(l).Some? ==> !Holder(z, t);
    }
  }

  lemma {:induction false} SteppedCalls<C>(log: seq<Entry<C>>, t: nat)
    ensures CallsOf(Stepped(log), t) == CallsOf(log, t)
  {
    if log != [] {
      assert Stepped(log)[..|log| - 1] == log[..|log| - 1];
    }
  }

  lemma AppendedCalls<C>(log: seq<Entry<C>>, t: nat, c: C, u: nat)
    ensures CallsOf(log + [Entry(t, c, 0)], u) == CallsOf(log, u) + if t == u then [c] else []
  {
    assert (log + [Entry(t, c, 0)])[..|log|] == log;
  }

  lemma OrderKeptAt<S, L, C, R>(api: Api<S, L, C, R>, y: System<S, L, C, R>, program: map<nat, seq<C>>, t: nat, u: nat)
    requires Threads(y) && t in y.pcs && u in y.pcs && u in program && InOrder(y, program, u)
    ensures Threads(Act(api, y, t)) && InOrder(Act(api, y, t), program, u)
  {
    hide CallsOf, Stepped;
    match y.pcs[t] {
      case Away =>
        if y.todo[t] != [] {
          assert y.todo[t] == [y.todo[t][0]] + y.todo[t][1..];
        }
      case Spinning(c) => AppendedCalls(y.log, t, c, u);
      case Inside(c, l) => SteppedCalls(y.log, u);
    }
  }

  lemma OrderKept<S, L, C, R>(api: Api<S, L, C, R>, y: System<S, L, C, R>, program: map<nat, seq<C>>, t: nat)
    requires Threads(y) && t in y.pcs && AllInOrder(y, program)
    ensures Threads(Act(api, y, t)) && AllInOrder(Act(api, y, t), program)
  {
    hide InOrder;
    ActThreads(api, y, t);
    ActKeys(api, y, t);
    hide Act;
    forall u | u in program
      ensures InOrder(Act(api, y, t), program, u)
    {
      OrderKeptAt(api, y, program, t, u);
    }
  }

  lemma ActKeys<S, L, C, R>(api: Api<S, L, C, R>, y: System<S, L, C, R>, t: nat)
    requires Threads(y)
    ensures Act(api, y, t).pcs.Keys == y.pcs.Keys && Act(api, y, t).results.Keys == y.results.Keys
    ensures (forall i :: 0 <= i < |y.log| ==> y.log[i].thread in y.pcs) ==>
              forall i :: 0 <= i < |Act(api, y, t).log| ==> Act(api, y, t).log[i].thread in y.pcs
  {
  }

  lemma AnswerKept<S, L, C, R>(api: Api<S, L, C, R>, y: System<S, L, C, R>, s0: S, t: nat, u: nat)
    requires Threads(y) && t in y.pcs && u in y.results && Exclusive(api, y, s0) && Answered(api, y, s0, u)
    ensures u in Act(api, y, t).results && Answered(api, Act(api, y, t), s0, u)
  {
    hide Serial, LastLocals;
    match y.pcs[t] {
      case Away =>
      case Spinning(c) => AppendedLog(api, y.log, t, c, s0);
      case Inside(c, l) =>
        assert Holder(y, t);
        SteppedSerial(api, y.log, s0);
    }
  }

  lemma AnswersKept<S, L, C, R>(api: Api<S, L, C, R>, y: System<S, L, C, R>, s0: S, t: nat)
    requires Threads(y) && t in y.pcs && Exclusive(api, y, s0) && AllAnswered(api, y, s0)
    ensures AllAnswered(api, Act(api, y, t), s0)
  {
    hide Act, Answered, Exclusive;
    ActKeys(api, y, t);
    forall u | u in y.results
      ensures u in Act(api, y, t).results && Answered(api, Act(api, y, t), s0, u)
    {
      AnswerKept(api, y, s0, t, u);
    }
  }

  lemma SteppedSerial<S, L, C, R>(api: Api<S, L, C, R>, log: seq<Entry<C>>, s0: S)
    requires log != []
    ensures (Serial(api, Stepped(log), s0), LastLocals(api, Stepped(log), s0)) ==
            api.step(Serial(api, log, s0), LastLocals(api, log, s0))
    ensures Stepped(log)[..|log| - 1] == log[..|log| - 1]
  {
  }

  /**
   Serialisability: after any schedule the shared state is that of the serial run in the order of
   acquisition, all calls but the one inside have run to their end in it and have returned what they
   return in it, each thread's calls come in program order, and at most one thread is inside.
   */
  lemma {:induction false} EveryScheduleIsSerial<S, L, C, R>(api: Api<S, L, C, R>, y: System<S, L, C, R>, s0: S,
                                                               program: map<nat, seq<C>>, schedule: seq<nat>)
    requires Starts(y, s0, program)
    ensures Serialised(api, Run(api, y, schedule), s0, program)
  {
    hide Serialised, Act;
    if schedule == [] {
      Started(api, y, s0, program);
    } else {
      var t := schedule[|schedule| - 1];
      var before := Run(api, y, schedule[..|schedule| - 1]);
      EveryScheduleIsSerial(api, y, s0, program, schedule[..|schedule| - 1]);
      if t in before.pcs {
        ActKeeps(api, before, s0, program, t);
      } else {
        NobodyActs(api, before, t);
      }
    }
  }

  lemma NobodyActs<S, L, C, R>(api: Api<S, L, C, R>, y: System<S, L, C, R>, t: nat)
    requires Threads(y) && t !in y.pcs
    ensures Act(api, y, t) == y
  {
  }

  /** Mutual exclusion: no two threads are between EnterSpinLock and LeaveSpinLock. */
  lemma AtMostOneInside<S, L, C, R>(api: Api<S, L, C, R>, y: System<S, L, C, R>, s0: S, program: map<nat, seq<C>>,
                                    schedule: seq<nat>, t: nat, u: nat)
    requires Starts(y, s0, program)
    ensures var z := Run(api, y, schedule); Holder(z, t) && Holder(z, u) ==> t == u && z.isLocked
  {
    EveryScheduleIsSerial(api, y, s0, program, schedule);
    hide Serial, Complete, AllInOrder, AllAnswered;
  }

  /** When all threads are through, each has made exactly its calls and got the answers of the serial run. */
  lemma FinishedRunIsSerial<S, L, C, R>(api: Api<S, L, C, R>, y: System<S, L, C, R>, s0: S, program: map<nat, seq<C>>,
                                        schedule: seq<nat>)
    requires Starts(y, s0, program)
    requires var z := Run(api, y, schedule);
             forall t :: t in z.pcs && t in z.todo ==> z.pcs[t] == Away && z.todo[t] == []
    ensures var z := Run(api, y, schedule);
            && !z.isLocked && z.shared == Serial(api, z.log, s0) && Complete(api, z.log, s0)
            && forall t :: t in program ==>
               CallsOf(z.log, t) == program[t] && t in z.results && z.results[t] == ResultsOf(api, z.log, s0, t)
  {
    EveryScheduleIsSerial(api, y, s0, program, schedule);
    hide Serial, Complete, Run, CallsOf, ResultsOf, LastLocals;
    var z := Run(api, y, schedule);
    assert forall t :: !Holder(z, t);
    forall t | t in program
      ensures CallsOf(z.log, t) == program[t] && t in z.results && z.results[t] == ResultsOf(api, z.log, s0, t)
    {
      assert InOrder(z, program, t) && Answered(api, z, s0, t);
    }
  }

  // ---------- Nobody is shut out ----------

  /** The body of the call is over after k steps from shared state s. */
  predicate OverAt<S, L, C, R>(api: Api<S, L, C, R>, c: C, s: S, k: nat) {
    api.done(Steps(api, c, s, k).1).Some?
  }

  /** The body of the call comes to an end when it runs from shared state s. */
  ghost predicate Ends<S, L, C, R>(api: Api<S, L, C, R>, c: C, s: S) {
    exists n: nat :: OverAt(api, c, s, n)
  }

  function LastEntry<C>(log: seq<Entry<C>>): Entry<C>
    requires log != []
  {
    log[|log| - 1]
  }

  /** The shared state that the last call of the log started from. */
  function StartedFrom<S, L, C, R>(api: Api<S, L, C, R>, log: seq<Entry<C>>, s0: S): S
    requires log != []
  {
    Serial(api, log[..|log| - 1], s0)
  }

  /** While the lock is held, the body inside has not been over at any of its earlier steps. */
  ghost predicate NotOver<S, L, C, R>(api: Api<S, L, C, R>, y: System<S, L, C, R>, s0: S) {
    y.isLocked && y.log != [] ==>
      forall k: nat :: k < LastEntry(y.log).steps ==>
        !OverAt(api, LastEntry(y.log).call, StartedFrom(api, y.log, s0), k)
  }

  lemma RunNone<S, L, C, R>(api: Api<S, L, C, R>, y: System<S, L, C, R>)
    requires Threads(y)
    ensures Run(api, y, []) == y
  {
  }

  lemma RunOne<S, L, C, R>(api: Api<S, L, C, R>, y: System<S, L, C, R>, t: nat)
    requires Threads(y)
    ensures Run(api, y, [t]) == Act(api, y, t)
  {
    assert [t][..0] == [];
    hide Act;
  }

  lemma {:induction false} RunAppended<S, L, C, R>(api: Api<S, L, C, R>, y: System<S, L, C, R>, first: seq<nat>,
                                                   more: seq<nat>)
    requires Threads(y)
    ensures Run(api, y, first + more) == Run(api, Run(api, y, first), more)
  {
    hide Act, Threads;
    if more == [] {
      assert first + more == first;
    } else {
      RunAppended(api, y, first, more[..|more| - 1]);
      assert (first + more)[..|first + more| - 1] == first + more[..|more| - 1];
    }
  }

  lemma NobodyOver<S, L, C, R>(api: Api<S, L, C, R>, y: System<S, L, C, R>, s0: S, program: map<nat, seq<C>>)
    requires Starts(y, s0, program)
    ensures Threads(y) && NotOver(api, y, s0)
  {
  }

  lemma SteppedLast<S, L, C, R>(api: Api<S, L, C, R>, log: seq<Entry<C>>, s0: S)
    requires log != []
    ensures var e, e' := LastEntry(log), LastEntry(Stepped(log));
            Stepped(log) != [] && e'.call == e.call && e'.thread == e.thread && e'.steps == e.steps + 1
    ensures StartedFrom(api, Stepped(log), s0) == StartedFrom(api, log, s0)
    ensures OverAt(api, LastEntry(log).call, StartedFrom(api, log, s0), LastEntry(log).steps) <==>
            api.done(LastLocals(api, log, s0)).Some?
  {
    assert Stepped(log)[..|log| - 1] == log[..|log| - 1];
    hide Steps, Serial;
  }

  lemma AppendedLast<C>(log: seq<Entry<C>>, t: nat, c: C)
    ensures var log' := log + [Entry(t, c, 0)]; log' != [] && LastEntry(log') == Entry(t, c, 0)
  {
  }

  lemma ActNotOver<S, L, C, R>(api: Api<S, L, C, R>, y: System<S, L, C, R>, s0: S, program: map<nat, seq<C>>, t: nat)
    requires Serialised(api, y, s0, program) && NotOver(api, y, s0)
    ensures NotOver(api, Act(api, y, t), s0)
  {
    hide Serial, Complete, AllInOrder, AllAnswered, Steps, LastEntry, StartedFrom, OverAt, Stepped, LastLocals;
    if t in y.pcs && y.pcs[t].Spinning? {
      AppendedLast(y.log, t, y.pcs[t].call);
    } else if t in y.pcs && y.pcs[t].Inside? {
      assert Holder(y, t);
      SteppedLast(api, y.log, s0);
    }
  }

  lemma {:induction false} NeverOver<S, L, C, R>(api: Api<S, L, C, R>, y: System<S, L, C, R>, s0: S,
                                                 program: map<nat, seq<C>>, schedule: seq<nat>)
    requires Starts(y, s0, program)
    ensures NotOver(api, Run(api, y, schedule), s0)
    ensures Serialised(api, Run(api, y, schedule), s0, program)
  {
    hide NotOver, Act, Serialised;
    EveryScheduleIsSerial(api, y, s0, program, schedule);
    if schedule == [] {
      NobodyOver(api, y, s0, program);
    } else {
      var before := schedule[..|schedule| - 1];
      NeverOver(api, y, s0, program, before);
      ActNotOver(api, Run(api, y, before), s0, program, schedule[|schedule| - 1]);
    }
  }

  /** Thread t has left with an answer; nobody else has moved. */
  ghost predicate Left<S, L, C, R>(y: System<S, L, C, R>, z: System<S, L, C, R>, t: nat) {
    && !z.isLocked && z.pcs == y.pcs[t := Away] && z.todo == y.todo && z.results.Keys == y.results.Keys
    && t in y.results && |z.results[t]| == |y.results[t]| + 1
    && forall u :: u in y.results && u != t ==> z.results[u] == y.results[u]
  }

  /** One step of the holder: it leaves, or it is one step further. */
  lemma HolderActs<S, L, C, R>(api: Api<S, L, C, R>, y: System<S, L, C, R>, s0: S, program: map<nat, seq<C>>)
    requires Serialised(api, y, s0, program) && y.isLocked
    ensures Threads(y) && y.log != [] && LastEntry(y.log).thread in y.pcs && LastEntry(y.log).thread in y.results
    ensures var t := LastEntry(y.log).thread;
            var z := Act(api, y, t);
            if api.done(LastLocals(api, y.log, s0)).Some? then Left(y, z, t)
            else
              && z.isLocked && z.log == Stepped(y.log)
              && forall z' :: Left(z, z', t) ==> Left(y, z', t)
  {
    hide Serial, Complete, AllInOrder, AllAnswered, LastLocals;
  }

  /** The thread inside leaves after the steps that its body still has to take. */
  lemma {:induction false} HolderLeaves<S, L, C, R>(api: Api<S, L, C, R>, y: System<S, L, C, R>, s0: S,
                                                    program: map<nat, seq<C>>, n: nat)
    returns (more: seq<nat>)
    requires Serialised(api, y, s0, program) && y.isLocked && y.log != []
    requires LastEntry(y.log).steps <= n && OverAt(api, LastEntry(y.log).call, StartedFrom(api, y.log, s0), n)
    ensures Threads(y) && Left(y, Run(api, y, more), LastEntry(y.log).thread)
    decreases n - LastEntry(y.log).steps
  {
    hide *;
    HolderActs(api, y, s0, program);
    SteppedLast(api, y.log, s0);
    var t := LastEntry(y.log).thread;
    RunOne(api, y, t);
    if api.done(LastLocals(api, y.log, s0)).Some? {
      more := [t];
    } else {
      ActKeeps(api, y, s0, program, t);
      var next := HolderLeaves(api, Act(api, y, t), s0, program, n);
      more := [t] + next;
      RunAppended(api, y, [t], next);
    }
  }

  /** The thread that holds the lock leaves, if every body ends. */
  lemma LockComesFree<S(!new), L, C(!new), R>(api: Api<S, L, C, R>, y: System<S, L, C, R>, s0: S,
                                              program: map<nat, seq<C>>)
    returns (more: seq<nat>)
    requires Serialised(api, y, s0, program) && NotOver(api, y, s0) && y.isLocked
    requires forall c: C, s: S :: Ends(api, c, s)
    ensures Threads(y) && y.log != [] && Left(y, Run(api, y, more), LastEntry(y.log).thread)
  {
    hide Serialised, Act, Run, Left, StartedFrom, LastEntry, Steps;
    HolderActs(api, y, s0, program);
    var e, s := LastEntry(y.log), StartedFrom(api, y.log, s0);
    assert Ends(api, e.call, s);
    var n: nat :| OverAt(api, e.call, s, n);
    more := HolderLeaves(api, y, s0, program, n);
  }

  /** A thread that has a call to make. */
  predicate Waits<S, L, C, R>(y: System<S, L, C, R>, t: nat) {
    t in y.pcs && t in y.todo && t in y.results && (y.pcs[t].Spinning? || (y.pcs[t].Away? && y.todo[t] != []))
  }

  /** A waiting thread that finds the lock free is inside after at most two steps. */
  lemma LockTaken<S, L, C, R>(api: Api<S, L, C, R>, y: System<S, L, C, R>, t: nat) returns (more: seq<nat>)
    requires Threads(y) && Waits(y, t) && !y.isLocked
    ensures var z := Run(api, y, more);
            z.isLocked && z.log != [] && LastEntry(z.log).thread == t && z.results == y.results
  {
    RunOne(api, y, t);
    more := [t];
    if y.pcs[t].Away? {
      RunOne(api, Run(api, y, [t]), t);
      RunAppended(api, y, [t], [t]);
      more := [t] + [t];
    }
    hide Run;
  }

  lemma RunKeeps<S, L, C, R>(api: Api<S, L, C, R>, y: System<S, L, C, R>, s0: S, program: map<nat, seq<C>>,
                             schedule: seq<nat>, more: seq<nat>)
    requires Starts(y, s0, program)
    ensures var z := Run(api, Run(api, y, schedule), more);
            Serialised(api, z, s0, program) && NotOver(api, z, s0)
  {
    hide *;
    StartThreads(y, s0, program);
    NeverOver(api, y, s0, program, schedule + more);
    RunAppended(api, y, schedule, more);
  }

  lemma StartThreads<S, L, C, R>(y: System<S, L, C, R>, s0: S, program: map<nat, seq<C>>)
    requires Starts(y, s0, program)
    ensures Threads(y)
  {
  }

  /**
   From every state that a schedule can lead to, some schedule gives thread t its next answer, if it has a call
   to make and the bodies end: the lock is never lost, and nobody is shut out for good.
   */
  lemma CallGetsThrough<S(!new), L, C(!new), R>(api: Api<S, L, C, R>, y: System<S, L, C, R>, s0: S,
                                                program: map<nat, seq<C>>, schedule: seq<nat>, t: nat)
    returns (more: seq<nat>)
    requires Starts(y, s0, program) && forall c: C, s: S :: Ends(api, c, s)
    requires var z := Run(api, y, schedule); Waits(z, t)
    ensures var z, z' := Run(api, y, schedule), Run(api, y, schedule + more);
            t in z.results && t in z'.results && |z'.results[t]| == |z.results[t]| + 1
  {
    hide Run, Act, Serialised, NotOver, Starts, Ends, LastEntry;
    StartThreads(y, s0, program);
    var z := Run(api, y, schedule);
    RunKeeps(api, y, s0, program, schedule, []);
    RunNone(api, z);
    more := [];
    if z.isLocked {
      more := LockComesFree(api, z, s0, program);
      WaitsOn(api, z, s0, program, Run(api, z, more), t);
    }
    var z1 := Run(api, z, more);
    var taken := LockTaken(api, z1, t);
    RunAppended(api, z, more, taken);
    RunKeeps(api, y, s0, program, schedule, more + taken);
    var z2 := Run(api, z1, taken);
    var next := LockComesFree(api, z2, s0, program);
    RunAppended(api, z, more + taken, next);
    more := more + taken + next;
    RunAppended(api, y, schedule, more);
  }

  /** A thread that waits while another one leaves still waits. */
  lemma WaitsOn<S, L, C, R>(api: Api<S, L, C, R>, y: System<S, L, C, R>, s0: S, program: map<nat, seq<C>>,
                            z: System<S, L, C, R>, t: nat)
    requires Serialised(api, y, s0, program) && y.isLocked && y.log != []
    requires Left(y, z, LastEntry(y.log).thread) && Waits(y, t)
    ensures Waits(z, t) && z.results[t] == y.results[t] && !z.isLocked
  {
    hide Serial, Complete, AllInOrder, AllAnswered, LastLocals;
  }
}
