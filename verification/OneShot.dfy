/** Connections handed round between the kernel, the dispatcher thread, the work queue and the
    workers. EPOLLONESHOT: delivering an event disarms the connection, and only a thread that
    then owns it arms it again. The work queue is the pool of module ThreadPool, in which the
    dispatcher is the only producer. */
module OneShot {
  import opened Basics
  import Pool = ThreadPool

  type Conn = nat
  type Thread = Pool.Thread

  const DISPATCHER: Thread := 0

  /** `Looping`: in the loop over the events of one epoll_wait, handling the first of `batch` if
      there is one; `Appending(c)`: inside append, before the push; `Returning`: after it. */
  datatype DispatcherPc = Looping | Appending(c: Conn) | Returning

  /** `stalled` are the connections whose task the full queue has refused. */
  datatype State = State(
    pool: Pool.State<Conn>, live: set<Conn>, armed: set<Conn>, batch: seq<Conn>,
    dispatcher: DispatcherPc, stalled: set<Conn>)

  datatype Step =
    | Accept(c: Conn)               // init: a fresh descriptor, registered and armed
    | Wait(cs: seq<Conn>)           // epoll_wait: the delivered connections are disarmed
    | Close                         // hang-up, failed read or failed write: close_conn, out of the kernel's set
    | Rearm                         // write(): modfd, blocked or with the response complete
    | Read                          // read() succeeded: call append
    | Queue(step: Pool.Step<Conn>)  // one step inside append, or of a worker up to process()
    | Done(w: Thread)               // process(): modfd as the last access, idle on a closed descriptor
    | FailClose(w: Thread)          // process(): process_write failed, close_conn

  predicate Initial(s: State) {
    && Pool.Initial(s.pool) && s.pool.producers == map[DISPATCHER := Pool.Away]
    && s.live == s.armed == s.stalled == {} && s.batch == [] && s.dispatcher == Looping
  }

  predicate Distinct(cs: seq<Conn>) { forall c :: c in cs ==> multiset(cs)[c] == 1 }

  predicate Enabled(s: State, max: nat, step: Step) {
    match step
    case Accept(c) => s.dispatcher.Looping? && c !in s.live
    case Wait(cs) => s.dispatcher.Looping? && s.batch == [] && Distinct(cs) && forall c :: c in cs ==> c in s.armed
    case Close => s.dispatcher.Looping? && s.batch != []
    case Rearm => s.dispatcher.Looping? && s.batch != []
    case Read => s.dispatcher.Looping? && s.batch != [] && Pool.Enabled(s.pool, max, Pool.Call(DISPATCHER, s.batch[0]))
    case Queue(q) => !q.Call? && !q.Finish? && Pool.Enabled(s.pool, max, q)
    case Done(w) => Pool.Enabled(s.pool, max, Pool.Finish(w))
    case FailClose(w) => w in s.pool.workers && s.pool.workers[w].Running? && s.pool.workers[w].task in s.live
  }

  function Apply(s: State, max: nat, step: Step): State
    requires Enabled(s, max, step)
  {
    match step
    case Accept(c) => s.(live := s.live + {c}, armed := s.armed + {c})
    case Wait(cs) => s.(armed := s.armed - (set c | c in cs), batch := cs)
    case Close => s.(live := s.live - {s.batch[0]}, armed := s.armed - {s.batch[0]}, batch := s.batch[1..])
    case Rearm => s.(armed := s.armed + {s.batch[0]}, batch := s.batch[1..])
    case Read =>
      s.(pool := Pool.Apply(s.pool, max, Pool.Call(DISPATCHER, s.batch[0])),
         dispatcher := Appending(s.batch[0]), batch := s.batch[1..])
    case Queue(q) =>
      var s' := s.(pool := Pool.Apply(s.pool, max, q));
      if q.Push? then s'.(dispatcher := Returning)
      else if q.Post? then s'.(dispatcher := Looping)
      else if q.Refuse? then s'.(dispatcher := Looping, stalled := s.stalled + {s.pool.producers[q.p].task})
      else s'
    case Done(w) =>
      s.(pool := Pool.Apply(s.pool, max, Pool.Finish(w)),
         armed := if s.pool.workers[w].task in s.live then s.armed + {s.pool.workers[w].task} else s.armed)
    case FailClose(w) => s.(live := s.live - {s.pool.workers[w].task}, armed := s.armed - {s.pool.workers[w].task})
  }

  // ---- where a connection is ------------------------------------------------------------------

  predicate Holds(pc: Pool.WorkerPc<Conn>, c: Conn) { (pc.Popped? || pc.Running?) && pc.task == c }

  function Holders(workers: map<Thread, Pool.WorkerPc<Conn>>, c: Conn): set<Thread> {
    set w | w in workers && Holds(workers[w], c)
  }

  function One(b: bool): nat { if b then 1 else 0 }

  /** In how many places a connection is: armed in the kernel, delivered but not handled, on its way
      into the queue, queued (as often as it is), held by workers (by as many), or stalled. */
  function Tally(s: State, c: Conn): nat {
    One(c in s.armed) + multiset(s.batch)[c] + One(s.dispatcher == Appending(c)) +
    multiset(s.pool.queue)[c] + |Holders(s.pool.workers, c)| + One(c in s.stalled)
  }

  /** An open connection is in exactly one place, any other in none. */
  predicate Placed(s: State, c: Conn) { Tally(s, c) == One(c in s.live) }

  predicate InStep(s: State) {
    && s.pool.producers.Keys == {DISPATCHER}
    && match s.dispatcher
       case Looping => s.pool.producers[DISPATCHER].Away?
       case Appending(c) => s.pool.producers[DISPATCHER] in [Pool.WantLock(c), Pool.HasLock(c)]
       case Returning => s.pool.producers[DISPATCHER].Pushed? || s.pool.producers[DISPATCHER].ToPost?
  }

  lemma HoldersMove(workers: map<Thread, Pool.WorkerPc<Conn>>, w: Thread, pc: Pool.WorkerPc<Conn>, c: Conn)
    requires w in workers
    ensures Holders(workers[w := pc], c) ==
            if Holds(pc, c) then Holders(workers, c) + {w} else Holders(workers, c) - {w}
    ensures w in Holders(workers, c) <==> Holds(workers[w], c)
  {
  }

  lemma StepKeepsInStep(s: State, max: nat, step: Step)
    requires InStep(s) && Enabled(s, max, step)
    ensures InStep(Apply(s, max, step))
  {
  }

  /** The dispatcher's own steps move a connection, they never copy or lose one. */
  lemma DispatcherStepKeepsTally(s: State, max: nat, step: Step, c: Conn)
    requires InStep(s) && Enabled(s, max, step) && Placed(s, c)
    requires step.Accept? || step.Wait? || step.Close? || step.Rearm? || step.Read?
    ensures var s' := Apply(s, max, step); Placed(s', c)
  {
    if step.Close? || step.Rearm? || step.Read? {
      assert s.batch == [s.batch[0]] + s.batch[1..];
    }
  }

  lemma AppendStepKeepsTally(s: State, max: nat, q: Pool.Step<Conn>, c: Conn)
    requires InStep(s) && Enabled(s, max, Queue(q)) && Pool.ByProducer(q) && Placed(s, c)
    ensures var s' := Apply(s, max, Queue(q)); Placed(s', c)
  {
  }

  lemma WorkerStepKeepsHolders(s: State, max: nat, q: Pool.Step<Conn>, c: Conn)
    requires Enabled(s, max, Queue(q)) && !Pool.ByProducer(q) && !q.Pop?
    ensures var s' := Apply(s, max, Queue(q));
            && Holders(s'.pool.workers, c) == Holders(s.pool.workers, c)
            && s' == s.(pool := s'.pool) && s'.pool.queue == s.pool.queue
  {
  }

  lemma WorkerStepKeepsTally(s: State, max: nat, q: Pool.Step<Conn>, c: Conn)
    requires Enabled(s, max, Queue(q)) && !Pool.ByProducer(q) && !q.Pop? && Placed(s, c)
    ensures var s' := Apply(s, max, Queue(q)); Placed(s', c)
  {
    WorkerStepKeepsHolders(s, max, q, c);
    hide Holders, Apply, Enabled;
  }

  lemma PopKeepsTally(s: State, max: nat, w: Thread, c: Conn)
    requires Enabled(s, max, Queue(Pool.Pop(w))) && Placed(s, c)
    ensures var s' := Apply(s, max, Queue(Pool.Pop(w))); Placed(s', c)
  {
    hide Holders;
    HoldersMove(s.pool.workers, w, Pool.Popped(s.pool.queue[0]), c);
    assert s.pool.queue == [s.pool.queue[0]] + s.pool.queue[1..];
  }

  lemma DoneIs(s: State, max: nat, w: Thread)
    requires Enabled(s, max, Done(w))
    ensures w in s.pool.workers && s.pool.workers[w].Running?
    ensures var c := s.pool.workers[w].task;
            Apply(s, max, Done(w)) ==
            s.(pool := s.pool.(workers := s.pool.workers[w := Pool.Waiting]),
               armed := if c in s.live then s.armed + {c} else s.armed)
  {
  }

  lemma DoneKeepsTally(s: State, max: nat, w: Thread, c: Conn)
    requires Enabled(s, max, Done(w)) && Placed(s, c)
    ensures var s' := Apply(s, max, Done(w)); Placed(s', c)
  {
    DoneIs(s, max, w);
    HoldersMove(s.pool.workers, w, Pool.Waiting, c);
    hide Holders, Apply, Enabled, Pool.Apply, Pool.Enabled;
  }

  lemma FailCloseKeepsTally(s: State, max: nat, w: Thread, c: Conn)
    requires Enabled(s, max, FailClose(w)) && s.pool.workers[w].task != c && Placed(s, c)
    ensures Placed(Apply(s, max, FailClose(w)), c)
  {
  }

  /** The step is a failed process_write inside the connection. */
  predicate FailsInside(s: State, step: Step, c: Conn) {
    step.FailClose? && step.w in s.pool.workers && s.pool.workers[step.w] == Pool.Running(c)
  }

  /** A step that is not a failed write inside the connection itself moves it or leaves it alone; it
      never copies or loses it. */
  lemma StepKeepsTally(s: State, max: nat, step: Step, c: Conn)
    requires InStep(s) && Placed(s, c) && Enabled(s, max, step) && !FailsInside(s, step, c)
    ensures InStep(Apply(s, max, step)) && Placed(Apply(s, max, step), c)
  {
    StepKeepsInStep(s, max, step);
    hide Placed, InStep, Apply;
    match step
    case Queue(q) =>
      if Pool.ByProducer(q) {
        AppendStepKeepsTally(s, max, q, c);
      } else if q.Pop? {
        PopKeepsTally(s, max, q.w, c);
      } else {
        WorkerStepKeepsTally(s, max, q, c);
      }
    case Done(w) => DoneKeepsTally(s, max, w, c);
    case FailClose(w) => FailCloseKeepsTally(s, max, w, c);
    case _ => DispatcherStepKeepsTally(s, max, step, c);
  }

  // ---- runs -----------------------------------------------------------------------------------

  predicate Runs(s: State, max: nat, steps: seq<Step>)
    decreases |steps|
  {
    steps == [] || (Enabled(s, max, steps[0]) && Runs(Apply(s, max, steps[0]), max, steps[1..]))
  }

  function After(s: State, max: nat, steps: seq<Step>): State
    requires Runs(s, max, steps)
    decreases |steps|
  {
    if steps == [] then s else After(Apply(s, max, steps[0]), max, steps[1..])
  }

  /** Somewhere in the run process_write fails inside the connection. */
  predicate SomeFailsInside(s: State, max: nat, steps: seq<Step>, c: Conn)
    requires Runs(s, max, steps)
    decreases |steps|
  {
    steps != [] && (FailsInside(s, steps[0], c) || SomeFailsInside(Apply(s, max, steps[0]), max, steps[1..], c))
  }

  lemma {:induction false} RunKeepsTally(s: State, max: nat, steps: seq<Step>, c: Conn)
    requires InStep(s) && Placed(s, c) && Runs(s, max, steps) && !SomeFailsInside(s, max, steps, c)
    ensures InStep(After(s, max, steps)) && Placed(After(s, max, steps), c)
    decreases |steps|
  {
    if steps != [] {
      hide Placed, InStep, Apply, Enabled, FailsInside;
      StepKeepsTally(s, max, steps[0], c);
      RunKeepsTally(Apply(s, max, steps[0]), max, steps[1..], c);
    }
  }

  /** The dispatcher may touch the connection's object while it handles its event, and so may every
      worker that has taken it from the queue. */
  predicate DispatcherInside(s: State, c: Conn) { s.dispatcher.Looping? && s.batch != [] && s.batch[0] == c }

  /** The connection is not inside two threads, not queued twice, and not queued or armed while a
      thread is inside. */
  predicate Exclusive(s: State, c: Conn) {
    && One(DispatcherInside(s, c)) + |Holders(s.pool.workers, c)| <= 1
    && multiset(s.pool.queue)[c] <= 1
    && (DispatcherInside(s, c) || Holders(s.pool.workers, c) != {} ==> c !in s.pool.queue && c !in s.armed)
  }

  lemma PlacedIsExclusive(s: State, c: Conn)
    requires Placed(s, c)
    ensures Exclusive(s, c)
  {
    if DispatcherInside(s, c) {
      assert s.batch == [s.batch[0]] + s.batch[1..];
    }
  }

  lemma InitiallyPlaced(s: State, c: Conn)
    requires Initial(s)
    ensures InStep(s) && Placed(s, c)
  {
  }

  /** No connection is lost or duplicated: over every run without a failed write inside it, whatever
      happens inside others, it is in exactly one place while open and in none otherwise. */
  lemma EveryConnectionInOnePlace(s: State, max: nat, steps: seq<Step>, c: Conn)
    requires Initial(s) && Runs(s, max, steps) && !SomeFailsInside(s, max, steps, c)
    ensures Tally(After(s, max, steps), c) == One(c in After(s, max, steps).live)
  {
    InitiallyPlaced(s, c);
    RunKeepsTally(s, max, steps, c);
  }

  /** Exclusive ownership, over every run without a failed write inside the connection. */
  lemma ExclusiveOwnership(s: State, max: nat, steps: seq<Step>, c: Conn)
    requires Initial(s) && Runs(s, max, steps) && !SomeFailsInside(s, max, steps, c)
    ensures Exclusive(After(s, max, steps), c)
  {
    EveryConnectionInOnePlace(s, max, steps, c);
    PlacedIsExclusive(After(s, max, steps), c);
  }

  /** The pool's own guarantees hold inside the server: each step here is a step of the pool or none. */
  lemma {:induction false} PoolStaysSound(s: State, max: nat, steps: seq<Step>)
    requires Pool.Inv(s.pool, max) && Runs(s, max, steps)
    ensures Pool.Inv(After(s, max, steps).pool, max)
    decreases |steps|
  {
    if steps != [] {
      PoolStepSound(s, max, steps[0]);
      hide Pool.Inv, Apply, Enabled;
      PoolStaysSound(Apply(s, max, steps[0]), max, steps[1..]);
    }
  }

  lemma PoolStepSound(s: State, max: nat, step: Step)
    requires Pool.Inv(s.pool, max) && Enabled(s, max, step)
    ensures Pool.Inv(Apply(s, max, step).pool, max)
  {
    hide Pool.Inv, Pool.Apply, Pool.Enabled;
    match step {
      case Read => Pool.StepKeepsInv(s.pool, max, Pool.Call(DISPATCHER, s.batch[0]));
      case Queue(q) => Pool.StepKeepsInv(s.pool, max, q);
      case Done(w) => Pool.StepKeepsInv(s.pool, max, Pool.Finish(w));
      case _ =>
    }
  }

  // ---- open and armed -------------------------------------------------------------------------

  /** What a step is to a connection, told from the step, the connection whose event is being handled
      and the connections the workers are inside. */
  datatype Deed = Opening | Closing | Arming | Disarming {
    predicate Is(s: State, step: Step, c: Conn) {
      match this
      case Opening => step == Accept(c)
      case Closing => Closes(s, step, c)
      case Arming =>
        || step == Accept(c)
        || (step.Rearm? && AtHead(s, c))
        || (step.Done? && Inside(s, step.w, c) && c in s.live)
      case Disarming => (step.Wait? && c in step.cs) || Closes(s, step, c)
    }
  }

  predicate Closes(s: State, step: Step, c: Conn) { (step.Close? && AtHead(s, c)) || FailsInside(s, step, c) }

  predicate AtHead(s: State, c: Conn) { s.batch != [] && s.batch[0] == c }

  predicate Inside(s: State, w: Thread, c: Conn) { w in s.pool.workers && s.pool.workers[w] == Pool.Running(c) }

  /** Some step of the run is the deed. */
  predicate Happens(d: Deed, s: State, max: nat, steps: seq<Step>, c: Conn)
    requires Runs(s, max, steps)
    decreases |steps|
  {
    steps != [] && (d.Is(s, steps[0], c) || Happens(d, Apply(s, max, steps[0]), max, steps[1..], c))
  }

  /** Some step of the run is the deed, and none behind it undoes it. */
  predicate Stands(d: Deed, undo: Deed, s: State, max: nat, steps: seq<Step>, c: Conn)
    requires Runs(s, max, steps)
    decreases |steps|
  {
    steps != [] &&
    var s' := Apply(s, max, steps[0]);
    || (d.Is(s, steps[0], c) && !Happens(undo, s', max, steps[1..], c))
    || Stands(d, undo, s', max, steps[1..], c)
  }

  lemma StepOpens(s: State, max: nat, step: Step, c: Conn)
    requires Enabled(s, max, step)
    ensures c in Apply(s, max, step).live <==>
            Opening.Is(s, step, c) || (c in s.live && !Closing.Is(s, step, c))
    ensures c in Apply(s, max, step).armed <==>
            Arming.Is(s, step, c) || (c in s.armed && !Disarming.Is(s, step, c))
  {
  }

  lemma {:induction false} RunOpens(s: State, max: nat, steps: seq<Step>, c: Conn)
    requires Runs(s, max, steps)
    ensures c in After(s, max, steps).live <==>
            (c in s.live && !Happens(Closing, s, max, steps, c)) || Stands(Opening, Closing, s, max, steps, c)
    ensures c in After(s, max, steps).armed <==>
            (c in s.armed && !Happens(Disarming, s, max, steps, c)) || Stands(Arming, Disarming, s, max, steps, c)
    decreases |steps|
  {
    if steps != [] {
      StepOpens(s, max, steps[0], c);
      hide Apply, Enabled, Deed.Is;
      RunOpens(Apply(s, max, steps[0]), max, steps[1..], c);
    }
  }

  /** Exactly when a connection is open, and when the kernel may report it, over every run, failed
      writes or not. It is open if and only if it has been accepted with no close behind: neither by
      the dispatcher while it handles the connection's event, nor by a worker inside it whose write
      has failed. It is armed if and only if it has been accepted, or rearmed by the dispatcher while
      it handles its event or by a worker inside it while open, with neither a delivery of its event
      nor a close behind. */
  lemma OpenAndArmedExactly(s: State, max: nat, steps: seq<Step>, c: Conn)
    requires Initial(s) && Runs(s, max, steps)
    ensures c in After(s, max, steps).live <==> Stands(Opening, Closing, s, max, steps, c)
    ensures c in After(s, max, steps).armed <==> Stands(Arming, Disarming, s, max, steps, c)
  {
    RunOpens(s, max, steps, c);
  }

  /** Nobody is ever stuck, in any state of any run: the dispatcher at epoll_wait can be told of any
      armed connections, while it has an event it can handle it in all three ways and accept, and a
      worker in process() can finish, and fail first if its connection is open. */
  lemma EveryoneCanGoOn(s: State, max: nat, steps: seq<Step>, c: Conn, w: Thread)
    requires Initial(s) && Runs(s, max, steps)
    ensures var t := After(s, max, steps);
            && (t.dispatcher.Looping? && t.batch == [] && c in t.armed ==> Enabled(t, max, Wait([c])))
            && (t.dispatcher.Looping? && t.batch != [] ==>
                  Enabled(t, max, Close) && Enabled(t, max, Rearm) && Enabled(t, max, Read))
            && (t.dispatcher.Looping? && c !in t.live ==> Enabled(t, max, Accept(c)))
            && (Inside(t, w, c) ==> Enabled(t, max, Done(w)) && (c in t.live ==> Enabled(t, max, FailClose(w))))
  {
    RunKeepsInStep(s, max, steps);
    hide Runs, After;
    assert multiset([c])[c] == 1;
  }

  // ---- failed writes --------------------------------------------------------------------------

  lemma Prepend(s: State, max: nat, step: Step, rest: seq<Step>)
    requires Enabled(s, max, step) && Runs(Apply(s, max, step), max, rest)
    ensures Runs(s, max, [step] + rest) && After(s, max, [step] + rest) == After(Apply(s, max, step), max, rest)
    ensures forall c :: SomeFailsInside(s, max, [step] + rest, c) <==>
                        FailsInside(s, step, c) || SomeFailsInside(Apply(s, max, step), max, rest, c)
  {
    assert ([step] + rest)[1..] == rest;
  }

  lemma {:induction false} RunsOn(s: State, max: nat, first: seq<Step>, more: seq<Step>)
    requires Runs(s, max, first) && Runs(After(s, max, first), max, more)
    ensures Runs(s, max, first + more) && After(s, max, first + more) == After(After(s, max, first), max, more)
    ensures forall c :: SomeFailsInside(s, max, first + more, c) <==>
                        SomeFailsInside(s, max, first, c) || SomeFailsInside(After(s, max, first), max, more, c)
    decreases |first|
  {
    if first == [] {
      assert first + more == more;
    } else {
      var s1, rest := Apply(s, max, first[0]), first[1..];
      RunsOn(s1, max, rest, more);
      assert [first[0]] + rest == first;
      hide Apply, Enabled, Runs, After, SomeFailsInside, FailsInside;
      Prepend(s, max, first[0], rest);
      Prepend(s, max, first[0], rest + more);
      assert first + more == [first[0]] + (rest + more);
    }
  }

  /** The worker is inside the connection, whose descriptor has been closed. */
  predicate LeftBehind(s: State, w: Thread, c: Conn) {
    w in s.pool.workers && s.pool.workers[w] == Pool.Running(c) && c !in s.live
  }

  /** What the dispatcher has to do, or to wait for, before it can ask for events again. */
  function PcRank(s: State): nat
    requires InStep(s)
  {
    match s.pool.producers[DISPATCHER]
    case Away => 0
    case ToPost(_) => 1
    case Pushed(_) => 2
    case HasLock(_) => 3
    case WantLock(_) => 4
  }

  function LockRank(s: State): nat {
    match s.pool.lock
    case Some(Worker(w)) => if w in s.pool.workers && s.pool.workers[w].Locked? then 2 else 1
    case _ => 0
  }

  /** The dispatcher is at epoll_wait and the mutex is free. */
  predicate Home(s: State) { s.dispatcher.Looping? && s.batch == [] && s.pool.lock == None }

  /** A step that brings the server nearer to that: of a worker that holds the mutex, or the
      dispatcher's own. */
  function HomeStep(s: State, max: nat): Step
    requires InStep(s)
  {
    match s.pool.producers[DISPATCHER]
    case Away => if s.batch != [] then Close else WorkerHomeStep(s)
    case ToPost(_) => Queue(Pool.Post(DISPATCHER))
    case Pushed(_) => Queue(Pool.Unlock(DISPATCHER))
    case HasLock(_) => Queue(if |s.pool.queue| > max then Pool.Refuse(DISPATCHER) else Pool.Push(DISPATCHER))
    case WantLock(_) => if s.pool.lock == None then Queue(Pool.Lock(DISPATCHER)) else WorkerHomeStep(s)
  }

  function WorkerHomeStep(s: State): Step {
    match s.pool.lock
    case Some(Worker(w)) =>
      Queue(if w in s.pool.workers && s.pool.workers[w].Locked? then Pool.Pop(w) else Pool.UnlockQueue(w))
    case _ => Close
  }

  lemma HomeStepNears(s: State, max: nat)
    requires Pool.Inv(s.pool, max) && InStep(s) && !Home(s)
    ensures var step := HomeStep(s, max);
            Enabled(s, max, step) && !step.FailClose? &&
            var s' := Apply(s, max, step);
            && InStep(s')
            && (|s'.batch| < |s.batch| ||
               (|s'.batch| == |s.batch| &&
                (PcRank(s') < PcRank(s) || (PcRank(s') == PcRank(s) && LockRank(s') < LockRank(s)))))
  {
    var step := HomeStep(s, max);
    if step.Queue? && step.step.Pop? {
      Pool.QueueNotEmpty(s.pool, max, step.step.w);
    }
  }

  lemma HomeStepPasses(s: State, max: nat, w: Thread, c: Conn)
    requires Pool.Inv(s.pool, max) && InStep(s) && Enabled(s, max, HomeStep(s, max)) && LeftBehind(s, w, c)
    ensures LeftBehind(Apply(s, max, HomeStep(s, max)), w, c)
  {
  }

  /** From every state of queue, mutex, batch and dispatcher the server can come back to epoll_wait
      with the mutex free, without a failed write, and past every worker left behind. */
  lemma {:induction false} DispatcherComesHome(s: State, max: nat) returns (more: seq<Step>)
    requires Pool.Inv(s.pool, max) && InStep(s)
    ensures Runs(s, max, more) && forall c :: !SomeFailsInside(s, max, more, c)
    ensures var s' := After(s, max, more);
            && Home(s') && InStep(s') && Pool.Inv(s'.pool, max)
            && forall w, c :: LeftBehind(s, w, c) ==> LeftBehind(s', w, c)
    decreases |s.batch|, PcRank(s), LockRank(s)
  {
    more := [];
    if !Home(s) {
      HomeStepNears(s, max);
      var step := HomeStep(s, max);
      PoolStepSound(s, max, step);
      var s1 := Apply(s, max, step);
      forall w, c | LeftBehind(s, w, c) ensures LeftBehind(s1, w, c) {
        HomeStepPasses(s, max, w, c);
      }
      hide Pool.Inv, InStep, Apply, Enabled, LeftBehind, HomeStep, PcRank, LockRank;
      var rest := DispatcherComesHome(s1, max);
      Prepend(s, max, step, rest);
      more := [step] + rest;
    }
  }

  /** The dispatcher accepts the descriptor anew and handles its event, with the worker still inside. */
  lemma AcceptedAnew(s: State, max: nat, w: Thread, c: Conn)
    requires s.dispatcher.Looping? && s.batch == [] && LeftBehind(s, w, c)
    ensures var more := [Accept(c)] + ([Wait([c])] + []);
            Runs(s, max, more) && !SomeFailsInside(s, max, more, c) && !Exclusive(After(s, max, more), c) &&
            DispatcherInside(After(s, max, more), c) && w in Holders(After(s, max, more).pool.workers, c)
  {
    var s1 := Apply(s, max, Accept(c));
    assert multiset([c])[c] == 1;
    var s2 := Apply(s1, max, Wait([c]));
    Prepend(s1, max, Wait([c]), []);
    Prepend(s, max, Accept(c), [Wait([c])] + []);
    assert w in Holders(s2.pool.workers, c);
  }

  /** Once process_write fails inside a connection, from whatever reachable state, ownership can be
      broken: the worker closes the descriptor first and returns later, and in between the dispatcher
      may finish what it is doing, accept the descriptor anew and handle its event. */
  lemma FailedWriteBreaksOwnership(s: State, max: nat, w: Thread, c: Conn) returns (more: seq<Step>)
    requires Pool.Inv(s.pool, max) && InStep(s) && Enabled(s, max, FailClose(w)) && s.pool.workers[w].task == c
    ensures var s1 := Apply(s, max, FailClose(w));
            Runs(s1, max, more) && !SomeFailsInside(s1, max, more, c) && !Exclusive(After(s1, max, more), c)
  {
    var s1 := Apply(s, max, FailClose(w));
    PoolStepSound(s, max, FailClose(w));
    StepKeepsInStep(s, max, FailClose(w));
    assert LeftBehind(s1, w, c);
    var first := DispatcherComesHome(s1, max);
    AcceptedAnew(After(s1, max, first), max, w, c);
    var last := [Accept(c)] + ([Wait([c])] + []);
    hide Runs, After, SomeFailsInside, Exclusive;
    RunsOn(s1, max, first, last);
    more := first + last;
  }

  /** Exactly when ownership of a connection is lost. Take any run whose steps but the last are free
      of failed writes inside it: it has a continuation, itself free of them, to two threads inside
      the connection, or to the connection queued twice or armed with a thread inside, if and only
      if its last step is a failed write inside the connection. */
  lemma OwnershipExactly(s: State, max: nat, steps: seq<Step>, step: Step, c: Conn)
    requires Initial(s) && Runs(s, max, steps) && !SomeFailsInside(s, max, steps, c)
    requires Enabled(After(s, max, steps), max, step)
    ensures FailsInside(After(s, max, steps), step, c) <==>
            exists more :: var s' := Apply(After(s, max, steps), max, step);
                           && Runs(s', max, more) && !SomeFailsInside(s', max, more, c)
                           && !Exclusive(After(s', max, more), c)
  {
    var t := After(s, max, steps);
    var t' := Apply(t, max, step);
    InitiallyPlaced(s, c);
    RunKeepsTally(s, max, steps, c);
    InitiallySound(s, max);
    PoolStaysSound(s, max, steps);
    hide Placed, InStep, Apply, Exclusive, Pool.Inv;
    if FailsInside(t, step, c) {
      var more := FailedWriteBreaksOwnership(t, max, step.w, c);
    } else {
      StepKeepsTally(t, max, step, c);
      forall more | Runs(t', max, more) && !SomeFailsInside(t', max, more, c)
        ensures Exclusive(After(t', max, more), c)
      {
        RunKeepsTally(t', max, more, c);
        PlacedIsExclusive(After(t', max, more), c);
      }
    }
  }

  lemma InitiallySound(s: State, max: nat)
    requires Initial(s)
    ensures Pool.Inv(s.pool, max)
  {
    assert Pool.Claims(s.pool.workers) == {} && Pool.Unposted(s.pool.producers) == {};
  }

  // ---- runs of one connection -----------------------------------------------------------------

  /** Nobody is doing anything, and the connection is closed. */
  predicate Ready(s: State, c: Conn) {
    && Home(s) && s.pool.producers == map[DISPATCHER := Pool.Away]
    && c !in s.live && c !in s.armed
  }

  /** A descriptor is accepted, its event handled, and the dispatcher in append with the mutex. */
  function Entered(s: State, c: Conn): State {
    s.(live := s.live + {c}, dispatcher := Appending(c),
       pool := s.pool.(lock := Some(Pool.Producer(DISPATCHER)), producers := map[DISPATCHER := Pool.HasLock(c)]))
  }

  function EnterSteps(c: Conn, rest: seq<Step>): seq<Step> {
    [Accept(c)] + ([Wait([c])] + ([Read] + ([Queue(Pool.Lock(DISPATCHER))] + rest)))
  }

  lemma Enters(s: State, max: nat, c: Conn, rest: seq<Step>)
    requires Ready(s, c) && Runs(Entered(s, c), max, rest)
    ensures Runs(s, max, EnterSteps(c, rest)) && After(s, max, EnterSteps(c, rest)) == After(Entered(s, c), max, rest)
  {
    assert multiset([c])[c] == 1;
    var s1 := Apply(s, max, Accept(c));
    var s2 := Apply(s1, max, Wait([c]));
    assert s2.armed == s.armed;
    var s3 := Apply(s2, max, Read);
    assert Apply(s3, max, Queue(Pool.Lock(DISPATCHER))) == Entered(s, c);
    hide Apply, Enabled, Ready, Entered, Runs, After;
    var r3 := [Queue(Pool.Lock(DISPATCHER))] + rest;
    Prepend(s3, max, Queue(Pool.Lock(DISPATCHER)), rest);
    Prepend(s2, max, Read, r3);
    Prepend(s1, max, Wait([c]), [Read] + r3);
    Prepend(s, max, Accept(c), [Wait([c])] + ([Read] + r3));
  }

  /** The task is accepted, ... */
  function Queued(s: State, c: Conn): State {
    s.(live := s.live + {c},
       pool := s.pool.(queue := s.pool.queue + [c], sem := s.pool.sem + 1, accepted := s.pool.accepted + [c]))
  }

  function QueueSteps(c: Conn, rest: seq<Step>): seq<Step> {
    EnterSteps(c, [Queue(Pool.Push(DISPATCHER))] + ([Queue(Pool.Unlock(DISPATCHER))] +
                  ([Queue(Pool.Post(DISPATCHER))] + rest)))
  }

  lemma QueuesOne(s: State, max: nat, c: Conn, rest: seq<Step>)
    requires Ready(s, c) && |s.pool.queue| <= max && Runs(Queued(s, c), max, rest)
    ensures Runs(s, max, QueueSteps(c, rest)) && After(s, max, QueueSteps(c, rest)) == After(Queued(s, c), max, rest)
  {
    var s1 := Entered(s, c);
    var s2 := Apply(s1, max, Queue(Pool.Push(DISPATCHER)));
    var s3 := Apply(s2, max, Queue(Pool.Unlock(DISPATCHER)));
    assert Apply(s3, max, Queue(Pool.Post(DISPATCHER))) == Queued(s, c);
    hide Apply, Enabled, Ready, Entered, Queued, Runs, After;
    var r3 := [Queue(Pool.Post(DISPATCHER))] + rest;
    Prepend(s3, max, Queue(Pool.Post(DISPATCHER)), rest);
    Prepend(s2, max, Queue(Pool.Unlock(DISPATCHER)), r3);
    Prepend(s1, max, Queue(Pool.Push(DISPATCHER)), [Queue(Pool.Unlock(DISPATCHER))] + r3);
    Enters(s, max, c, [Queue(Pool.Push(DISPATCHER))] + ([Queue(Pool.Unlock(DISPATCHER))] + r3));
  }

  /** ... or refused, ... */
  function Turned(s: State, c: Conn): State { s.(live := s.live + {c}, stalled := s.stalled + {c}) }

  function RefuseSteps(c: Conn): seq<Step> { EnterSteps(c, [Queue(Pool.Refuse(DISPATCHER))] + []) }

  lemma RefusesOne(s: State, max: nat, c: Conn)
    requires Ready(s, c) && |s.pool.queue| > max
    ensures Runs(s, max, RefuseSteps(c)) && After(s, max, RefuseSteps(c)) == Turned(s, c)
  {
    assert Apply(Entered(s, c), max, Queue(Pool.Refuse(DISPATCHER))) == Turned(s, c);
    Prepend(Entered(s, c), max, Queue(Pool.Refuse(DISPATCHER)), []);
    Enters(s, max, c, [Queue(Pool.Refuse(DISPATCHER))] + []);
  }

  /** ... and an accepted one is taken by a worker. */
  function Taken(s: State, w: Thread): State
    requires s.pool.queue != [] && s.pool.sem > 0
  {
    var c := s.pool.queue[0];
    s.(pool := s.pool.(queue := s.pool.queue[1..], sem := s.pool.sem - 1, popped := s.pool.popped + [c],
                       workers := s.pool.workers[w := Pool.Running(c)]))
  }

  function TakeSteps(w: Thread, rest: seq<Step>): seq<Step> {
    [Queue(Pool.Wake(w))] + ([Queue(Pool.LockQueue(w))] +
    ([Queue(Pool.Pop(w))] + ([Queue(Pool.UnlockQueue(w))] + rest)))
  }

  predicate CanTake(s: State, w: Thread) {
    && s.pool.lock == None && s.pool.queue != [] && s.pool.sem > 0
    && w in s.pool.workers && s.pool.workers[w].Waiting?
  }

  lemma TakesOne(s: State, max: nat, w: Thread, rest: seq<Step>)
    requires CanTake(s, w) && Runs(Taken(s, w), max, rest)
    ensures Runs(s, max, TakeSteps(w, rest)) && After(s, max, TakeSteps(w, rest)) == After(Taken(s, w), max, rest)
  {
    var s1 := Apply(s, max, Queue(Pool.Wake(w)));
    var s2 := Apply(s1, max, Queue(Pool.LockQueue(w)));
    assert s2 == s.(pool := s.pool.(sem := s.pool.sem - 1, lock := Some(Pool.Worker(w)),
                                    workers := s.pool.workers[w := Pool.Locked]));
    PopsOne(s2, max, w, rest, Taken(s, w));
    hide Apply, Enabled, CanTake, Taken, Runs, After;
    var r2 := [Queue(Pool.Pop(w))] + ([Queue(Pool.UnlockQueue(w))] + rest);
    Prepend(s1, max, Queue(Pool.LockQueue(w)), r2);
    Prepend(s, max, Queue(Pool.Wake(w)), [Queue(Pool.LockQueue(w))] + r2);
  }

  lemma PopsOne(s: State, max: nat, w: Thread, rest: seq<Step>, s': State)
    requires w in s.pool.workers && s.pool.workers[w].Locked? && s.pool.queue != []
    requires var c := s.pool.queue[0];
             s' == s.(pool := s.pool.(queue := s.pool.queue[1..], lock := None, popped := s.pool.popped + [c],
                                      workers := s.pool.workers[w := Pool.Running(c)]))
    requires Runs(s', max, rest)
    ensures var steps := [Queue(Pool.Pop(w))] + ([Queue(Pool.UnlockQueue(w))] + rest);
            Runs(s, max, steps) && After(s, max, steps) == After(s', max, rest)
  {
    var s1 := Apply(s, max, Queue(Pool.Pop(w)));
    assert Apply(s1, max, Queue(Pool.UnlockQueue(w))) == s';
    hide Apply, Enabled, Runs, After;
    Prepend(s1, max, Queue(Pool.UnlockQueue(w)), rest);
    Prepend(s, max, Queue(Pool.Pop(w)), [Queue(Pool.UnlockQueue(w))] + rest);
  }

  /** The worker arms the connection, the client hangs up, and the dispatcher closes it. */
  lemma HangsUp(s: State, max: nat, w: Thread, c: Conn, rest: seq<Step>)
    requires Home(s) && c in s.live && c !in s.armed && w in s.pool.workers && s.pool.workers[w] == Pool.Running(c)
    requires Runs(s.(live := s.live - {c}, pool := s.pool.(workers := s.pool.workers[w := Pool.Waiting])), max, rest)
    ensures var s' := s.(live := s.live - {c}, pool := s.pool.(workers := s.pool.workers[w := Pool.Waiting]));
            var steps := [Done(w)] + ([Wait([c])] + ([Close] + rest));
            Runs(s, max, steps) && After(s, max, steps) == After(s', max, rest)
  {
    assert multiset([c])[c] == 1;
    var s1 := Apply(s, max, Done(w));
    var s2 := Apply(s1, max, Wait([c]));
    assert s2.armed == s.armed && s2.batch == [c];
    assert Apply(s2, max, Close) ==
           s.(live := s.live - {c}, pool := s.pool.(workers := s.pool.workers[w := Pool.Waiting]));
    hide Apply, Enabled, Runs, After;
    Prepend(s2, max, Close, rest);
    Prepend(s1, max, Wait([c]), [Close] + rest);
    Prepend(s, max, Done(w), [Wait([c])] + ([Close] + rest));
  }

  /** Ready for the connection, with nothing queued and worker `w` waiting. */
  predicate Idle(s: State, w: Thread, c: Conn) {
    Ready(s, c) && s.pool.queue == [] && s.pool.sem == 0 && w in s.pool.workers && s.pool.workers[w].Waiting?
  }

  function LivedOnce(s: State, c: Conn): State {
    s.(pool := s.pool.(accepted := s.pool.accepted + [c], popped := s.pool.popped + [c]))
  }

  /** The descriptor of `c` is opened, served and closed `lives` times. */
  function Lived(s: State, c: Conn, lives: nat): State
    decreases lives
  {
    if lives == 0 then s else Lived(LivedOnce(s, c), c, lives - 1)
  }

  function LifeSteps(w: Thread, c: Conn, lives: nat, rest: seq<Step>): seq<Step>
    decreases lives
  {
    if lives == 0 then rest
    else QueueSteps(c, TakeSteps(w, [Done(w)] + ([Wait([c])] + ([Close] + LifeSteps(w, c, lives - 1, rest)))))
  }

  lemma {:induction false} LivesRun(s: State, max: nat, w: Thread, c: Conn, lives: nat, rest: seq<Step>)
    requires Idle(s, w, c) && Runs(Lived(s, c, lives), max, rest)
    ensures Runs(s, max, LifeSteps(w, c, lives, rest))
    ensures After(s, max, LifeSteps(w, c, lives, rest)) == After(Lived(s, c, lives), max, rest)
    decreases lives
  {
    if lives > 0 {
      var next := LivedOnce(s, c);
      var inside := Taken(Queued(s, c), w);
      var left := inside.pool.(workers := inside.pool.workers[w := Pool.Waiting]);
      assert inside.(live := inside.live - {c}, pool := left) == next;
      assert CanTake(Queued(s, c), w) && Home(inside);
      hide Runs, After, Apply, Enabled, QueueSteps, TakeSteps, Queued, Taken;
      LivesRun(next, max, w, c, lives - 1, rest);
      var last := LifeSteps(w, c, lives - 1, rest);
      HangsUp(inside, max, w, c, last);
      TakesOne(Queued(s, c), max, w, [Done(w)] + ([Wait([c])] + ([Close] + last)));
      QueuesOne(s, max, c, TakeSteps(w, [Done(w)] + ([Wait([c])] + ([Close] + last))));
    }
  }

  lemma {:induction false} LivedIsIdle(s: State, w: Thread, c: Conn, lives: nat)
    requires Idle(s, w, c)
    ensures Idle(Lived(s, c, lives), w, c)
    decreases lives
  {
    if lives > 0 {
      LivedIsIdle(LivedOnce(s, c), w, c, lives - 1);
    }
  }

  /** The smallest server, with one worker. */
  function Small(w: Thread): State {
    var pool := Pool.State([], 0, None, map[DISPATCHER := Pool.Away], map[w := Pool.Waiting], [], []);
    State(pool, {}, {}, [], Looping, {})
  }

  /** A complete run from the initial state, through a failed write, to two threads inside one
      connection: the write fails after the descriptor, and with it the object, has been used and
      closed any number of times. */
  lemma OwnershipNeedsSuccessfulWrites(max: nat, w: Thread, c: Conn, lives: nat)
    ensures Initial(Small(w))
    ensures var last := [FailClose(w)] + ([Accept(c)] + ([Wait([c])] + []));
            var steps := LifeSteps(w, c, lives, QueueSteps(c, TakeSteps(w, last)));
            Runs(Small(w), max, steps) &&
            var s' := After(Small(w), max, steps);
            DispatcherInside(s', c) && w in Holders(s'.pool.workers, c)
  {
    var last := [FailClose(w)] + ([Accept(c)] + ([Wait([c])] + []));
    LivedIsIdle(Small(w), w, c, lives);
    hide Runs, After, Lived;
    FailsOnce(Lived(Small(w), c, lives), max, w, c);
    LivesRun(Small(w), max, w, c, lives, QueueSteps(c, TakeSteps(w, last)));
  }

  lemma FailsOnce(s: State, max: nat, w: Thread, c: Conn)
    requires Idle(s, w, c)
    ensures var steps := QueueSteps(c, TakeSteps(w, [FailClose(w)] + ([Accept(c)] + ([Wait([c])] + []))));
            Runs(s, max, steps) &&
            var s' := After(s, max, steps);
            DispatcherInside(s', c) && w in Holders(s'.pool.workers, c)
  {
    var queued := Queued(s, c);
    assert CanTake(queued, w);
    var inside := Taken(queued, w);
    var last := [FailClose(w)] + ([Accept(c)] + ([Wait([c])] + []));
    assert inside.dispatcher.Looping? && inside.batch == [] && c in inside.live;
    assert inside.pool.workers[w] == Pool.Running(c);
    hide QueueSteps, TakeSteps, Queued, Taken;
    FailsInsideOnce(inside, max, w, c);
    hide Runs, After, Apply, Enabled;
    TakesOne(queued, max, w, last);
    QueuesOne(s, max, c, TakeSteps(w, last));
  }

  lemma FailsInsideOnce(s: State, max: nat, w: Thread, c: Conn)
    requires s.dispatcher.Looping? && s.batch == [] && c in s.live
    requires w in s.pool.workers && s.pool.workers[w] == Pool.Running(c)
    ensures var steps := [FailClose(w)] + ([Accept(c)] + ([Wait([c])] + []));
            Runs(s, max, steps) &&
            var s' := After(s, max, steps);
            DispatcherInside(s', c) && w in Holders(s'.pool.workers, c)
  {
    var s1 := Apply(s, max, FailClose(w));
    AcceptedAnew(s1, max, w, c);
    hide Runs, After;
    Prepend(s, max, FailClose(w), [Accept(c)] + ([Wait([c])] + []));
  }

  // ---- refused tasks --------------------------------------------------------------------------

  lemma StalledStays(s: State, max: nat, step: Step, c: Conn)
    requires Enabled(s, max, step) && c in s.stalled
    ensures c in Apply(s, max, step).stalled
  {
  }

  lemma StalledIsAlone(s: State, c: Conn)
    requires Placed(s, c) && c in s.stalled
    ensures c in s.live && c !in s.armed && c !in s.batch && c !in s.pool.queue && Holders(s.pool.workers, c) == {}
  {
  }

  lemma StalledIsNotFailed(s: State, step: Step, c: Conn)
    requires Placed(s, c) && c in s.stalled
    ensures !FailsInside(s, step, c)
  {
    StalledIsAlone(s, c);
    assert forall w :: w in s.pool.workers ==> w !in Holders(s.pool.workers, c);
  }

  lemma {:induction false} StalledIsLeftAlone(s: State, max: nat, steps: seq<Step>, c: Conn)
    requires InStep(s) && Placed(s, c) && c in s.stalled && Runs(s, max, steps)
    ensures var s' := After(s, max, steps); Placed(s', c) && c in s'.stalled
    decreases |steps|
  {
    if steps != [] {
      StalledIsNotFailed(s, steps[0], c);
      hide Placed, InStep, Apply, Enabled, FailsInside;
      StalledStays(s, max, steps[0], c);
      StepKeepsTally(s, max, steps[0], c);
      StalledIsLeftAlone(Apply(s, max, steps[0]), max, steps[1..], c);
    }
  }

  /** The verdict of append is ignored. A connection that is refused, after a run without failed
      writes inside it, stays open for ever, and whatever happens from then on it is never armed,
      delivered, queued or touched by a worker again. */
  lemma StalledForEver(s: State, max: nat, steps: seq<Step>, more: seq<Step>, c: Conn)
    requires Initial(s) && Runs(s, max, steps) && !SomeFailsInside(s, max, steps, c)
    requires c in After(s, max, steps).stalled && Runs(After(s, max, steps), max, more)
    ensures var s' := After(After(s, max, steps), max, more);
            && c in s'.live && c in s'.stalled
            && c !in s'.armed && c !in s'.batch && c !in s'.pool.queue && Holders(s'.pool.workers, c) == {}
  {
    InitiallyPlaced(s, c);
    RunKeepsTally(s, max, steps, c);
    StalledIsLeftAlone(After(s, max, steps), max, more, c);
    StalledIsAlone(After(After(s, max, steps), max, more), c);
  }

  /** The step is a refusal of the connection's task. */
  predicate Refuses(s: State, step: Step, c: Conn) {
    && step.Queue? && step.step.Refuse?
    && step.step.p in s.pool.producers && s.pool.producers[step.step.p] == Pool.HasLock(c)
  }

  predicate SomeRefuses(s: State, max: nat, steps: seq<Step>, c: Conn)
    requires Runs(s, max, steps)
    decreases |steps|
  {
    steps != [] && (Refuses(s, steps[0], c) || SomeRefuses(Apply(s, max, steps[0]), max, steps[1..], c))
  }

  lemma StepStalls(s: State, max: nat, step: Step, c: Conn)
    requires Enabled(s, max, step)
    ensures c in Apply(s, max, step).stalled <==> c in s.stalled || Refuses(s, step, c)
  {
  }

  lemma {:induction false} RunStalls(s: State, max: nat, steps: seq<Step>, c: Conn)
    requires Runs(s, max, steps)
    ensures c in After(s, max, steps).stalled <==> c in s.stalled || SomeRefuses(s, max, steps, c)
    decreases |steps|
  {
    if steps != [] {
      hide Apply, Enabled, Refuses;
      StepStalls(s, max, steps[0], c);
      RunStalls(Apply(s, max, steps[0]), max, steps[1..], c);
    }
  }

  /** Exactly when a connection stalls, over every run: if and only if some step of it is a refusal of
      its task; and the dispatcher in append is refused if and only if one task more than the maximum
      is queued, and gets its task in otherwise. */
  lemma StalledExactly(s: State, max: nat, steps: seq<Step>, c: Conn)
    requires Initial(s) && Runs(s, max, steps)
    ensures c in After(s, max, steps).stalled <==> SomeRefuses(s, max, steps, c)
    ensures var t := After(s, max, steps);
            DISPATCHER in t.pool.producers && t.pool.producers[DISPATCHER] == Pool.HasLock(c) ==>
              && (Enabled(t, max, Queue(Pool.Refuse(DISPATCHER))) <==> |t.pool.queue| == max + 1)
              && (Enabled(t, max, Queue(Pool.Push(DISPATCHER))) <==> |t.pool.queue| != max + 1)
  {
    RunStalls(s, max, steps, c);
    InitiallySound(s, max);
    PoolStaysSound(s, max, steps);
    hide Runs, After, SomeRefuses, Initial;
    assert |After(s, max, steps).pool.queue| <= max + 1;
  }

  lemma {:induction false} RunKeepsInStep(s: State, max: nat, steps: seq<Step>)
    requires InStep(s) && Runs(s, max, steps)
    ensures InStep(After(s, max, steps))
    decreases |steps|
  {
    if steps != [] {
      hide Apply, Enabled, InStep;
      StepKeepsInStep(s, max, steps[0]);
      RunKeepsInStep(Apply(s, max, steps[0]), max, steps[1..]);
    }
  }

  lemma {:induction false} BelowAll(cs: set<Conn>) returns (bound: Conn)
    ensures forall c :: c in cs ==> c < bound
  {
    bound := 0;
    if cs != {} {
      var c :| c in cs;
      var rest := BelowAll(cs - {c});
      assert forall d :: d in cs ==> d == c || d in cs - {c};
      bound := if rest > c then rest else c + 1;
    }
  }

  lemma {:induction false} Overloads(s: State, max: nat, from: Conn) returns (more: seq<Step>, c: Conn)
    requires Home(s) && InStep(s) && |s.pool.queue| <= max + 1
    requires forall d :: d in s.live || d in s.armed ==> d < from
    ensures c >= from && Runs(s, max, more) && c in After(s, max, more).stalled && c in After(s, max, more).live
    decreases max + 1 - |s.pool.queue|
  {
    c := from;
    assert s.pool.producers == map[DISPATCHER := Pool.Away];
    assert Ready(s, c);
    if |s.pool.queue| == max + 1 {
      RefusesOne(s, max, c);
      more := RefuseSteps(c);
    } else {
      var rest;
      rest, c := Overloads(Queued(s, from), max, from + 1);
      QueuesOne(s, max, from, rest);
      more := QueueSteps(from, rest);
    }
  }

  /** Refusals happen, whatever the maximum: every run of every server can go on to one. */
  lemma RefusalHappens(s: State, max: nat, steps: seq<Step>) returns (more: seq<Step>, c: Conn)
    requires Initial(s) && Runs(s, max, steps)
    ensures Runs(s, max, steps + more)
    ensures c !in After(s, max, steps).live && c in After(s, max, steps + more).live
    ensures c in After(s, max, steps + more).stalled
  {
    var t := After(s, max, steps);
    InitiallySound(s, max);
    PoolStaysSound(s, max, steps);
    InitiallyPlaced(s, 0);
    RunKeepsInStep(s, max, steps);
    var first := DispatcherComesHome(t, max);
    var h := After(t, max, first);
    var from := BelowAll(t.live + h.live + h.armed);
    assert |h.pool.queue| <= max + 1;
    hide Pool.Inv, InStep, Apply, Enabled, Runs, After, SomeFailsInside;
    var last;
    last, c := Overloads(h, max, from);
    RunsOn(t, max, first, last);
    more := first + last;
    RunsOn(s, max, steps, more);
  }
}
