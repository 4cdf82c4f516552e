/** One event-loop thread and any number of other threads that queue functors or ask it to quit.
    A step is one access to shared state: the two scoped blocks around `pendingFunctors_` are
    atomic, and everything between them may interleave. */
module EventLoop {

  type Functor = nat
  type Thread = nat

  /** Where the loop thread is. `Polling` covers being blocked; `Handling(wake)` still has the
      wakeup channel to handle if `wake`; `ToWake` is a functor between queueing and waking. */
  datatype LoopPc =
    | NotStarted | CheckQuit | Polling | Handling(wake: bool)
    | EnterDrain | BeforeSwap | Running | ToWake | Exited

  /** `enqueuers` and `quitters` are the other threads that have queued a functor, or set the quit
      flag, and have not yet written the eventfd. */
  datatype State = State(
    pc: LoopPc, pending: seq<Functor>, batch: seq<Functor>, calling: bool, quit: bool, counter: nat,
    enqueuers: set<Thread>, quitters: set<Thread>,
    history: seq<Functor>, executed: seq<Functor>)

  const INITIAL: State := State(NotStarted, [], [], false, false, 0, {}, {}, [], [])

  const COUNTER_MAX: nat := 0xffff_ffff_ffff_fffe

  /** A write to the non-blocking eventfd: it adds one, or fails on a full counter. */
  function Bump(counter: nat): nat { if counter >= COUNTER_MAX then counter else counter + 1 }

  datatype Step =
    | Start                       // loop(), for the first time or again: clear the quit flag
    | Check                       // the while condition
    | PollReturns(wake: bool)     // with or without the wakeup channel among the active ones
    | HandleWake                  // handleRead on the eventfd
    | EndHandling
    | SetCalling
    | Swap
    | RunFunctor                  // take the next functor of the batch
    | EndDrain
    | LoopEnqueue(f: Functor)     // queueInLoop by the loop thread, from a callback
    | LoopWake                    // the wakeup that queueInLoop ends with
    | LoopQuit                    // quit by the loop thread, from a callback or outside loop()
    | EarlyEnqueue(f: Functor)    // queueInLoop by the loop thread outside loop()
    | Enqueue(t: Thread, f: Functor) | EnqueueWake(t: Thread)
    | Quit(t: Thread) | QuitWake(t: Thread)

  predicate Outside(pc: LoopPc) { pc.NotStarted? || pc.Exited? }

  predicate Idle(s: State, t: Thread) { t !in s.enqueuers && t !in s.quitters }

  predicate Enabled(s: State, step: Step) {
    match step
    case Start => Outside(s.pc)
    case Check => s.pc.CheckQuit?
    case PollReturns(wake) => s.pc.Polling? && (wake ==> s.counter > 0)
    case HandleWake => s.pc == Handling(true)
    case EndHandling => s.pc == Handling(false)
    case SetCalling => s.pc.EnterDrain?
    case Swap => s.pc.BeforeSwap?
    case RunFunctor => s.pc.Running? && s.batch != []
    case EndDrain => s.pc.Running? && s.batch == []
    case LoopEnqueue(_) => s.pc.Handling? || s.pc.Running?
    case LoopWake => s.pc.ToWake?
    case LoopQuit => Outside(s.pc) || s.pc.Handling? || s.pc.Running?
    case EarlyEnqueue(_) => Outside(s.pc)
    case Enqueue(t, _) => Idle(s, t)
    case EnqueueWake(t) => t in s.enqueuers
    case Quit(t) => Idle(s, t)
    case QuitWake(t) => t in s.quitters
  }

  function Push(s: State, f: Functor): State {
    s.(pending := s.pending + [f], history := s.history + [f])
  }

  function Apply(s: State, step: Step): State
    requires Enabled(s, step)
  {
    match step
    case Start => s.(pc := CheckQuit, quit := false)
    case Check => s.(pc := if s.quit then Exited else Polling)
    case PollReturns(wake) => s.(pc := Handling(wake))
    case HandleWake => s.(pc := Handling(false), counter := 0)
    case EndHandling => s.(pc := EnterDrain)
    case SetCalling => s.(pc := BeforeSwap, calling := true)
    case Swap => s.(pc := Running, batch := s.pending, pending := [])
    case RunFunctor => s.(executed := s.executed + [s.batch[0]], batch := s.batch[1..])
    case EndDrain => s.(pc := CheckQuit, calling := false)
    case LoopEnqueue(f) => if s.calling then Push(s, f).(pc := ToWake) else Push(s, f)
    case LoopWake => s.(pc := Running, counter := Bump(s.counter))
    case LoopQuit => s.(quit := true)
    case EarlyEnqueue(f) => Push(s, f)
    case Enqueue(t, f) => Push(s, f).(enqueuers := s.enqueuers + {t})
    case EnqueueWake(t) => s.(enqueuers := s.enqueuers - {t}, counter := Bump(s.counter))
    case Quit(t) => s.(quit := true, quitters := s.quitters + {t})
    case QuitWake(t) => s.(quitters := s.quitters - {t}, counter := Bump(s.counter))
  }

  // ---- runs -----------------------------------------------------------------------------------

  predicate Runs(s: State, steps: seq<Step>)
    decreases |steps|
  {
    steps == [] || (Enabled(s, steps[0]) && Runs(Apply(s, steps[0]), steps[1..]))
  }

  function After(s: State, steps: seq<Step>): State
    requires Runs(s, steps)
    decreases |steps|
  {
    if steps == [] then s else After(Apply(s, steps[0]), steps[1..])
  }

  // ---- the invariant --------------------------------------------------------------------------

  /** Between handling the eventfd and the swap, a drain is still to come, whatever the counter says. */
  predicate DrainAhead(pc: LoopPc) { pc.Handling? || pc.EnterDrain? || pc.BeforeSwap? }

  predicate WakeupOwed(s: State) { s.counter > 0 || s.enqueuers != {} || s.pc.ToWake? }

  ghost predicate Inv(s: State) {
    && (s.quit && s.pc.Polling? ==> s.counter > 0 || s.quitters != {})
    && (s.calling <==> s.pc.BeforeSwap? || s.pc.Running? || s.pc.ToWake?)
    && (s.batch != [] ==> s.pc.Running? || s.pc.ToWake?)
    && s.executed + s.batch + s.pending == s.history
  }

  lemma StepKeepsInv(s: State, step: Step)
    requires Inv(s) && Enabled(s, step)
    ensures Inv(Apply(s, step))
  {
  }

  lemma {:induction false} RunKeepsInv(s: State, steps: seq<Step>)
    requires Inv(s) && Runs(s, steps)
    ensures Inv(After(s, steps))
    decreases |steps|
  {
    if steps != [] {
      StepKeepsInv(s, steps[0]);
      RunKeepsInv(Apply(s, steps[0]), steps[1..]);
    }
  }

  /** The functors that the steps queue, in order. */
  function Asked(steps: seq<Step>): seq<Functor> {
    if steps == [] then []
    else (if steps[0].LoopEnqueue? || steps[0].EarlyEnqueue? || steps[0].Enqueue? then [steps[0].f] else []) +
         Asked(steps[1..])
  }

  lemma {:induction false} RunAsks(s: State, steps: seq<Step>)
    requires Runs(s, steps)
    ensures After(s, steps).history == s.history + Asked(steps)
    decreases |steps|
  {
    if steps != [] {
      RunAsks(Apply(s, steps[0]), steps[1..]);
    }
  }

  /** Functors run exactly once and in the order they were queued, by whomever. */
  lemma ExactlyOnceInOrder(steps: seq<Step>)
    requires Runs(INITIAL, steps)
    ensures var s := After(INITIAL, steps); s.executed + s.batch + s.pending == s.history == Asked(steps)
    ensures After(INITIAL, steps).executed <= Asked(steps)
  {
    RunKeepsInv(INITIAL, steps);
    RunAsks(INITIAL, steps);
    var s := After(INITIAL, steps);
    hide Runs, After, Asked;
    assert s.history == s.executed + (s.batch + s.pending);
  }

  predicate GoesTo(s: State, step: Step, pc: LoopPc) { Enabled(s, step) && Apply(s, step).pc == pc }

  /** The loop thread is never stuck, and no other thread is: outside loop() it can enter it, at poll
      it can return, with the wakeup channel exactly if the eventfd is readable, and so on round the
      loop; and every other thread can queue or quit, and finish what it has begun. */
  lemma EveryoneCanGoOn(s: State, t: Thread, f: Functor)
    ensures match s.pc
            case NotStarted => GoesTo(s, Start, CheckQuit)
            case CheckQuit => GoesTo(s, Check, if s.quit then Exited else Polling)
            case Polling =>
              && GoesTo(s, PollReturns(false), Handling(false))
              && (if s.counter > 0 then GoesTo(s, PollReturns(true), Handling(true))
                  else !Enabled(s, PollReturns(true)))
            case Handling(wake) =>
              if wake then GoesTo(s, HandleWake, Handling(false)) else GoesTo(s, EndHandling, EnterDrain)
            case EnterDrain => GoesTo(s, SetCalling, BeforeSwap)
            case BeforeSwap => GoesTo(s, Swap, Running)
            case Running => if s.batch != [] then GoesTo(s, RunFunctor, Running) else GoesTo(s, EndDrain, CheckQuit)
            case ToWake => GoesTo(s, LoopWake, Running)
            case Exited => GoesTo(s, Start, CheckQuit)
    ensures if t in s.enqueuers then Enabled(s, EnqueueWake(t))
            else if t in s.quitters then Enabled(s, QuitWake(t))
            else Enabled(s, Enqueue(t, f)) && Enabled(s, Quit(t))
  {
  }

  // ---- what a run leaves standing -------------------------------------------------------------

  /** Marks that some steps of a run make and others wipe out: the quit flag, a readable eventfd, a
      thread between queueing and waking, one between asking to quit and waking, and work that the
      loop thread has queued outside loop(). */
  datatype Mark = QuitMark | WakeMark | FlightMark(t: Thread) | QuitterMark(t: Thread) | EarlyMark {
    predicate Made(step: Step) {
      match this
      case QuitMark => step.Quit? || step.LoopQuit?
      case WakeMark => step.EnqueueWake? || step.QuitWake? || step.LoopWake?
      case FlightMark(t) => step.Enqueue? && step.t == t
      case QuitterMark(t) => step == Quit(t)
      case EarlyMark => step.EarlyEnqueue?
    }

    predicate Wiped(step: Step) {
      match this
      case QuitMark => step.Start?
      case WakeMark => step.HandleWake?
      case FlightMark(t) => step == EnqueueWake(t)
      case QuitterMark(t) => step == QuitWake(t)
      case EarlyMark => step.Swap?
    }
  }

  ghost predicate SomeWiped(m: Mark, steps: seq<Step>) { exists step :: step in steps && m.Wiped(step) }

  /** Some step of the run makes the mark, and none behind it wipes it out. */
  ghost predicate Stands(m: Mark, steps: seq<Step>) {
    exists i :: 0 <= i < |steps| && m.Made(steps[i]) && !SomeWiped(m, steps[i..])
  }

  lemma WipedStep(m: Mark, step: Step, rest: seq<Step>)
    ensures SomeWiped(m, [step] + rest) <==> m.Wiped(step) || SomeWiped(m, rest)
  {
    assert forall t :: t in [step] + rest <==> t == step || t in rest;
  }

  lemma StandsStep(m: Mark, step: Step, rest: seq<Step>)
    ensures SomeWiped(m, [step] + rest) <==> m.Wiped(step) || SomeWiped(m, rest)
    ensures Stands(m, [step] + rest) <==> (m.Made(step) && !SomeWiped(m, rest)) || Stands(m, rest)
  {
    WipedStep(m, step, rest);
    assert m.Made(step) ==> !m.Wiped(step);
    hide SomeWiped, Mark.Made, Mark.Wiped;
    var steps := [step] + rest;
    assert steps[0] == step && steps[0..] == steps;
    forall i | 0 <= i < |rest| ensures steps[i + 1] == rest[i] && steps[i + 1..] == rest[i..] {
    }
    if Stands(m, rest) {
      var i :| 0 <= i < |rest| && m.Made(rest[i]) && !SomeWiped(m, rest[i..]);
      assert m.Made(steps[i + 1]) && !SomeWiped(m, steps[i + 1..]);
    }
    if Stands(m, steps) {
      var i :| 0 <= i < |steps| && m.Made(steps[i]) && !SomeWiped(m, steps[i..]);
      if i > 0 {
        assert steps[i] == rest[i - 1] && steps[i..] == rest[i - 1..];
      }
    }
  }

  /** The marks that the state shows. */
  predicate Shows(s: State, m: Mark)
    requires !m.EarlyMark?
  {
    match m
    case QuitMark => s.quit
    case WakeMark => s.counter > 0
    case FlightMark(t) => t in s.enqueuers
    case QuitterMark(t) => t in s.quitters
  }

  lemma StepShows(s: State, step: Step, m: Mark)
    requires !m.EarlyMark? && Enabled(s, step)
    ensures Shows(Apply(s, step), m) <==> m.Made(step) || (Shows(s, m) && !m.Wiped(step))
  {
  }

  lemma {:induction false} RunShows(s: State, steps: seq<Step>, m: Mark)
    requires !m.EarlyMark? && Runs(s, steps)
    ensures Shows(After(s, steps), m) <==> (Shows(s, m) && !SomeWiped(m, steps)) || Stands(m, steps)
    decreases |steps|
  {
    if steps != [] {
      hide Apply, Enabled, Shows, Stands, SomeWiped;
      StepShows(s, steps[0], m);
      RunShows(Apply(s, steps[0]), steps[1..], m);
      StandsStep(m, steps[0], steps[1..]);
      assert steps == [steps[0]] + steps[1..];
    } else {
      assert !Stands(m, steps) && !SomeWiped(m, steps);
    }
  }

  // ---- wakeups --------------------------------------------------------------------------------

  /** Pending work is about to be taken, announced, about to be announced, or has (`early`) been
      queued by the loop thread outside loop() since the last swap. */
  ghost predicate Tracks(s: State, early: bool) {
    && (s.calling <==> s.pc.BeforeSwap? || s.pc.Running? || s.pc.ToWake?)
    && (s.pending != [] ==> DrainAhead(s.pc) || WakeupOwed(s) || early)
    && (early ==> s.pending != [])
  }

  lemma StepTracks(s: State, step: Step, early: bool)
    requires Tracks(s, early) && Enabled(s, step)
    ensures Tracks(Apply(s, step), step.EarlyEnqueue? || (early && !step.Swap?))
  {
  }

  lemma {:induction false} RunTracks(s: State, steps: seq<Step>, early: bool)
    requires Tracks(s, early) && Runs(s, steps)
    ensures Tracks(After(s, steps), (early && !SomeWiped(EarlyMark, steps)) || Stands(EarlyMark, steps))
    decreases |steps|
  {
    if steps != [] {
      hide Apply, Enabled, Tracks, Stands, SomeWiped;
      StepTracks(s, steps[0], early);
      RunTracks(Apply(s, steps[0]), steps[1..], steps[0].EarlyEnqueue? || (early && !steps[0].Swap?));
      StandsStep(EarlyMark, steps[0], steps[1..]);
      assert steps == [steps[0]] + steps[1..];
    } else {
      assert !Stands(EarlyMark, steps) && !SomeWiped(EarlyMark, steps);
    }
  }

  /** A loop thread that blocks over pending work which nobody has announced or is about to. */
  predicate Overlooked(s: State) {
    s.pc.Polling? && s.pending != [] && s.counter == 0 && s.enqueuers == {}
  }

  /** Exactly when a wakeup is lost, over every run that has come to poll: the loop thread has queued
      work outside loop() that no drain has taken since, no write to the eventfd has been left
      unread, and no thread has queued without having written it. */
  lemma LostExactly(steps: seq<Step>)
    requires Runs(INITIAL, steps) && After(INITIAL, steps).pc.Polling?
    ensures Overlooked(After(INITIAL, steps)) <==>
            && Stands(EarlyMark, steps) && !Stands(WakeMark, steps)
            && forall t :: !Stands(FlightMark(t), steps)
  {
    RunTracks(INITIAL, steps, false);
    RunShows(INITIAL, steps, WakeMark);
    hide Stands, SomeWiped, Runs, After;
    var s := After(INITIAL, steps);
    forall t ensures t in s.enqueuers <==> Stands(FlightMark(t), steps) {
      RunShows(INITIAL, steps, FlightMark(t));
    }
    assert s.enqueuers == {} <==> forall t :: t !in s.enqueuers;
  }

  /** No lost wakeup, over every run in which the loop thread queues from callbacks only: at poll
      with work pending, the eventfd is readable, or a thread has queued and is about to write it. */
  lemma NoLostWakeup(steps: seq<Step>)
    requires Runs(INITIAL, steps) && forall step :: step in steps ==> !step.EarlyEnqueue?
    ensures var s := After(INITIAL, steps);
            s.pc.Polling? && s.pending != [] ==> s.counter > 0 || s.enqueuers != {}
  {
    RunTracks(INITIAL, steps, false);
    assert !Stands(EarlyMark, steps);
  }

  /** A run that does lose one. */
  lemma EarlyEnqueueIsLost()
    ensures var steps := [EarlyEnqueue(7), Start, Check];
            Runs(INITIAL, steps) && Overlooked(After(INITIAL, steps)) && After(INITIAL, steps).quitters == {}
  {
  }

  // ---- a drain --------------------------------------------------------------------------------

  predicate InBatch(pc: LoopPc) { pc.Running? || pc.ToWake? }

  function CountRuns(steps: seq<Step>): nat {
    if steps == [] then 0 else (if steps[0].RunFunctor? then 1 else 0) + CountRuns(steps[1..])
  }

  ghost predicate NoEndDrain(steps: seq<Step>) { forall step :: step in steps ==> !step.EndDrain? }

  lemma StepInBatch(s: State, step: Step)
    requires InBatch(s.pc) && Enabled(s, step) && !step.EndDrain?
    ensures var s' := Apply(s, step);
            && InBatch(s'.pc) && s.pending <= s'.pending
            && if step.RunFunctor?
               then s.batch != [] && s'.executed == s.executed + [s.batch[0]] && s'.batch == s.batch[1..]
               else s'.executed == s.executed && s'.batch == s.batch
  {
  }

  lemma FrontMoves(executed: seq<Functor>, batch: seq<Functor>, k: nat)
    requires k < |batch|
    ensures executed + [batch[0]] + batch[1..][..k] == executed + batch[..k + 1] && batch[1..][k..] == batch[k + 1..]
  {
    assert [batch[0]] + batch[1..][..k] == batch[..k + 1];
  }

  /** A drain is finite and closed: however long it takes and whatever is queued meanwhile, it runs
      an initial piece of the batch it swapped out, and what is queued goes to the pending list. */
  lemma {:induction false} BatchIsClosed(s: State, steps: seq<Step>)
    requires InBatch(s.pc) && Runs(s, steps) && NoEndDrain(steps)
    ensures var k := CountRuns(steps); var s' := After(s, steps);
            && k <= |s.batch| && InBatch(s'.pc)
            && s'.executed == s.executed + s.batch[..k] && s'.batch == s.batch[k..]
            && s.pending <= s'.pending
    decreases |steps|
  {
    if steps != [] {
      assert steps[0] in steps && forall step :: step in steps[1..] ==> step in steps;
      StepInBatch(s, steps[0]);
      var s1 := Apply(s, steps[0]);
      hide Apply, Enabled;
      BatchIsClosed(s1, steps[1..]);
      var k := CountRuns(steps[1..]);
      hide Runs, After, InBatch;
      if steps[0].RunFunctor? {
        FrontMoves(s.executed, s.batch, k);
      }
    }
  }

  // ---- a wakeup that is owed is redeemed ------------------------------------------------------

  function RunAll(n: nat): seq<Step> {
    if n == 0 then [EndDrain] else [RunFunctor] + RunAll(n - 1)
  }

  lemma {:induction false} RunAllEmptiesBatch(s: State)
    requires s.pc.Running?
    ensures Runs(s, RunAll(|s.batch|))
    ensures After(s, RunAll(|s.batch|)) ==
            s.(pc := CheckQuit, calling := false, batch := [], executed := s.executed + s.batch)
    decreases |s.batch|
  {
    var steps := RunAll(|s.batch|);
    if s.batch == [] {
      assert Runs(Apply(s, EndDrain), []);
      assert s.executed + s.batch == s.executed;
      assert steps[1..] == [];
    } else {
      var s1 := Apply(s, RunFunctor);
      assert steps[1..] == RunAll(|s1.batch|);
      RunAllEmptiesBatch(s1);
      assert s1.executed + s1.batch == s.executed + s.batch;
    }
  }

  function ServeSteps(s: State): seq<Step> {
    [PollReturns(true), HandleWake, EndHandling, SetCalling, Swap] + RunAll(|s.pending|)
  }

  /** From every reachable poll with work pending that is not overlooked, and no thread in
      mid-queueing, the loop thread's own steps wake it up and run everything ever queued. */
  lemma PendingIsServed(steps: seq<Step>)
    requires Runs(INITIAL, steps)
    requires var s := After(INITIAL, steps);
             s.pc.Polling? && s.pending != [] && s.enqueuers == {} && !Overlooked(s)
    ensures var s := After(INITIAL, steps);
            Runs(s, ServeSteps(s)) && After(s, ServeSteps(s)).executed == s.history
  {
    RunKeepsInv(INITIAL, steps);
    var s := After(INITIAL, steps);
    assert s.executed + s.batch + s.pending == s.executed + s.pending;
    ServeRuns(s);
  }

  /** How far the functors of `past` have come: executed, in a batch, or waiting for the swap. */
  ghost predicate Comes(s: State, past: seq<Functor>) {
    || past <= s.executed
    || (InBatch(s.pc) && past <= s.executed + s.batch)
    || ((s.pc.Polling? || DrainAhead(s.pc)) && (s.calling ==> s.pc.BeforeSwap?) && s.batch == [] &&
        past <= s.executed + s.pending)
  }

  lemma StepComes(s: State, step: Step, past: seq<Functor>)
    requires Comes(s, past) && Enabled(s, step)
    ensures Comes(Apply(s, step), past)
    ensures step.EndDrain? ==> past <= Apply(s, step).executed
    ensures past <= s.executed ==> past <= Apply(s, step).executed
  {
    if step.RunFunctor? {
      assert s.executed + [s.batch[0]] + s.batch[1..] == s.executed + s.batch;
    }
    if step.Enqueue? || step.LoopEnqueue? {
      assert s.executed + (s.pending + [step.f]) == s.executed + s.pending + [step.f];
    }
  }

  lemma {:induction false} RunComes(s: State, steps: seq<Step>, past: seq<Functor>)
    requires Comes(s, past) && Runs(s, steps)
    ensures (past <= s.executed || exists step :: step in steps && step.EndDrain?) ==> past <= After(s, steps).executed
    decreases |steps|
  {
    if steps != [] {
      hide Apply, Enabled, Comes;
      StepComes(s, steps[0], past);
      RunComes(Apply(s, steps[0]), steps[1..], past);
      assert steps == [steps[0]] + steps[1..];
    }
  }

  /** Whatever the loop thread and all others do from a reachable poll on, overlooked work or not:
      once a drain has ended, everything queued before that poll has run. */
  lemma NextDrainServes(steps: seq<Step>, more: seq<Step>)
    requires Runs(INITIAL, steps) && After(INITIAL, steps).pc.Polling?
    requires Runs(After(INITIAL, steps), more) && exists step :: step in more && step.EndDrain?
    ensures After(INITIAL, steps).history <= After(After(INITIAL, steps), more).executed
  {
    RunKeepsInv(INITIAL, steps);
    var s := After(INITIAL, steps);
    assert s.executed + s.batch + s.pending == s.executed + s.pending;
    RunComes(s, more, s.history);
  }

  /** One whole iteration of the loop, if no callback queues or quits. */
  lemma ServeRuns(s: State)
    requires s.pc.Polling? && s.counter > 0
    ensures Runs(s, ServeSteps(s))
    ensures After(s, ServeSteps(s)) ==
            s.(pc := CheckQuit, counter := 0, calling := false, batch := [], pending := [],
               executed := s.executed + s.pending)
  {
    hide Runs, After, RunAll, Apply, Enabled;
    RunAllEmptiesBatch(Swapped(s));
    SwapsEverything(s, RunAll(|s.pending|));
  }

  /** The state in which the loop thread begins to run what was pending. */
  function Swapped(s: State): State {
    s.(pc := Running, counter := 0, calling := true, batch := s.pending, pending := [])
  }

  lemma SwapsEverything(s: State, rest: seq<Step>)
    requires s.pc.Polling? && s.counter > 0 && Runs(Swapped(s), rest)
    ensures var steps := [PollReturns(true), HandleWake, EndHandling, SetCalling, Swap] + rest;
            Runs(s, steps) && After(s, steps) == After(Swapped(s), rest)
  {
    var s1 := Apply(s, PollReturns(true));
    var s2 := Apply(s1, HandleWake);
    var s3 := Apply(s2, EndHandling);
    var s4 := Apply(s3, SetCalling);
    assert Apply(s4, Swap) == Swapped(s);
    hide Runs, After, Apply, Enabled, Swapped;
    var r5 := [Swap] + rest;
    var r4 := [SetCalling] + r5;
    var r3 := [EndHandling] + r4;
    var r2 := [HandleWake] + r3;
    PrependStep(s4, Swap, rest);
    PrependStep(s3, SetCalling, r5);
    PrependStep(s2, EndHandling, r4);
    PrependStep(s1, HandleWake, r3);
    PrependStep(s, PollReturns(true), r2);
    assert [PollReturns(true), HandleWake, EndHandling, SetCalling, Swap] + rest == [PollReturns(true)] + r2;
  }

  lemma PrependStep(s: State, step: Step, rest: seq<Step>)
    requires Enabled(s, step) && Runs(Apply(s, step), rest)
    ensures Runs(s, [step] + rest) && After(s, [step] + rest) == After(Apply(s, step), rest)
  {
  }

  // ---- quit -----------------------------------------------------------------------------------

  /** Exactly which threads have asked to quit and not yet written the eventfd, and when it is readable,
      over every run. */
  lemma QuittersExactly(steps: seq<Step>, t: Thread)
    requires Runs(INITIAL, steps)
    ensures t in After(INITIAL, steps).quitters <==> Stands(QuitterMark(t), steps)
    ensures After(INITIAL, steps).counter > 0 <==> Stands(WakeMark, steps)
  {
    RunShows(INITIAL, steps, QuitterMark(t));
    RunShows(INITIAL, steps, WakeMark);
  }

  /** A quit is not missed: at poll with the flag set, the eventfd is readable or about to be. */
  lemma QuitIsNotMissed(steps: seq<Step>)
    requires Runs(INITIAL, steps)
    ensures var s := After(INITIAL, steps); s.pc.Polling? && s.quit ==> s.counter > 0 || s.quitters != {}
  {
    RunKeepsInv(INITIAL, steps);
  }

  function CountPolls(steps: seq<Step>): nat {
    if steps == [] then 0 else (if steps[0].PollReturns? then 1 else 0) + CountPolls(steps[1..])
  }

  /** Once the flag is set in a started loop it stays set until loop() is called again, and no further
      iteration begins: at most the poll the loop thread is already in returns. */
  lemma {:induction false} AtMostOneMoreIteration(s: State, steps: seq<Step>)
    requires s.quit && !s.pc.NotStarted? && Runs(s, steps) && !SomeWiped(QuitMark, steps)
    ensures CountPolls(steps) <= if s.pc.Polling? then 1 else 0
    ensures After(s, steps).quit && !After(s, steps).pc.NotStarted?
    ensures After(s, steps).pc.Polling? ==> s.pc.Polling?
    decreases |steps|
  {
    if steps != [] {
      assert QuitMark.Wiped(steps[0]) <==> steps[0].Start?;
      assert steps[0] in steps && forall step :: step in steps[1..] ==> step in steps;
      AtMostOneMoreIteration(Apply(s, steps[0]), steps[1..]);
    }
  }

  lemma {:induction false} RunsOn(s: State, first: seq<Step>, more: seq<Step>)
    requires Runs(s, first) && Runs(After(s, first), more)
    ensures Runs(s, first + more) && After(s, first + more) == After(After(s, first), more)
    decreases |first|
  {
    if first == [] {
      assert first + more == more;
    } else {
      var s1, rest := Apply(s, first[0]), first[1..];
      assert Runs(s1, rest) && After(s, first) == After(s1, rest);
      hide Apply, Enabled, Runs, After;
      RunsOn(s1, rest, more);
      PrependStep(s, first[0], rest + more);
      assert first + more == [first[0]] + (rest + more);
    }
  }

  /** And the loop does exit: from every reachable poll with the flag set and no quitter in between,
      the loop thread's own steps finish the iteration and leave the loop. */
  lemma QuitIsServed(steps: seq<Step>)
    requires Runs(INITIAL, steps)
    requires var s := After(INITIAL, steps); s.pc.Polling? && s.quit && s.quitters == {}
    ensures var s := After(INITIAL, steps);
            Runs(s, ServeSteps(s) + [Check]) && After(s, ServeSteps(s) + [Check]).pc.Exited?
  {
    RunKeepsInv(INITIAL, steps);
    var s := After(INITIAL, steps);
    ServeRuns(s);
    var s1 := After(s, ServeSteps(s));
    assert Enabled(s1, Check) && Apply(s1, Check).pc.Exited?;
    PrependStep(s1, Check, []);
    assert [Check] + [] == [Check];
    hide Runs, ServeSteps;
    RunsOn(s, ServeSteps(s), [Check]);
  }

  /** Exactly when a quit is forgotten, over every run: the flag is set afterwards if and only if
      some quit has no start of the loop behind it. */
  lemma QuitForgottenExactly(steps: seq<Step>)
    requires Runs(INITIAL, steps)
    ensures After(INITIAL, steps).quit <==> Stands(QuitMark, steps)
  {
    RunShows(INITIAL, steps, QuitMark);
  }

  /** A run that does forget one. */
  lemma EarlyQuitIsForgotten()
    ensures var steps := [Quit(1), QuitWake(1), Start, Check];
            Runs(INITIAL, steps) && After(INITIAL, steps).pc.Polling? && !After(INITIAL, steps).quit
  {
  }
}
