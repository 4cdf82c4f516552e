/** The work queue: a list under a mutex and a counting semaphore, with any number of producers
    calling append and any number of workers in run. A step is one call on the mutex or the
    semaphore, or one look at the list by the thread that holds the mutex. */
module ThreadPool {

  import opened Basics

  type Thread = nat

  datatype ProducerPc<T> =
    | Away                    // not inside append
    | WantLock(task: T)
    | HasLock(task: T)
    | Pushed(task: T)         // holding the mutex, task queued
    | ToPost(task: T)

  datatype WorkerPc<T> =
    | Waiting                 // at sem_wait
    | Woken
    | Locked
    | Popped(task: T)         // holding the mutex, task taken
    | Running(task: T)        // inside process()

  datatype Owner = Producer(p: Thread) | Worker(w: Thread)

  datatype State<T> = State(
    queue: seq<T>, sem: nat, lock: Option<Owner>,
    producers: map<Thread, ProducerPc<T>>, workers: map<Thread, WorkerPc<T>>,
    accepted: seq<T>, popped: seq<T>)

  datatype Step<T> =
    | Call(p: Thread, task: T) | Lock(p: Thread) | Refuse(p: Thread)
    | Push(p: Thread) | Unlock(p: Thread) | Post(p: Thread)
    | Wake(w: Thread) | LockQueue(w: Thread) | FindEmpty(w: Thread)
    | Pop(w: Thread) | UnlockQueue(w: Thread) | Finish(w: Thread)

  predicate Initial<T(==)>(s: State<T>) {
    && s.queue == [] && s.sem == 0 && s.lock == None && s.accepted == [] && s.popped == []
    && (forall p :: p in s.producers ==> s.producers[p].Away?)
    && (forall w :: w in s.workers ==> s.workers[w].Waiting?)
  }

  predicate Enabled<T(==)>(s: State<T>, max: nat, step: Step<T>) {
    match step
    case Call(p, _) => p in s.producers && s.producers[p].Away?
    case Lock(p) => p in s.producers && s.producers[p].WantLock? && s.lock == None
    case Refuse(p) => p in s.producers && s.producers[p].HasLock? && |s.queue| > max
    case Push(p) => p in s.producers && s.producers[p].HasLock? && |s.queue| <= max
    case Unlock(p) => p in s.producers && s.producers[p].Pushed?
    case Post(p) => p in s.producers && s.producers[p].ToPost?
    case Wake(w) => w in s.workers && s.workers[w].Waiting? && s.sem > 0
    case LockQueue(w) => w in s.workers && s.workers[w].Woken? && s.lock == None
    case FindEmpty(w) => w in s.workers && s.workers[w].Locked? && s.queue == []
    case Pop(w) => w in s.workers && s.workers[w].Locked? && s.queue != []
    case UnlockQueue(w) => w in s.workers && s.workers[w].Popped?
    case Finish(w) => w in s.workers && s.workers[w].Running?
  }

  function Apply<T>(s: State<T>, max: nat, step: Step<T>): State<T>
    requires Enabled(s, max, step)
  {
    match step
    case Call(p, task) => s.(producers := s.producers[p := WantLock(task)])
    case Lock(p) => s.(lock := Some(Producer(p)), producers := s.producers[p := HasLock(s.producers[p].task)])
    case Refuse(p) => s.(lock := None, producers := s.producers[p := Away])
    case Push(p) =>
      var task := s.producers[p].task;
      s.(queue := s.queue + [task], accepted := s.accepted + [task], producers := s.producers[p := Pushed(task)])
    case Unlock(p) => s.(lock := None, producers := s.producers[p := ToPost(s.producers[p].task)])
    case Post(p) => s.(sem := s.sem + 1, producers := s.producers[p := Away])
    case Wake(w) => s.(sem := s.sem - 1, workers := s.workers[w := Woken])
    case LockQueue(w) => s.(lock := Some(Worker(w)), workers := s.workers[w := Locked])
    case FindEmpty(w) => s.(lock := None, workers := s.workers[w := Waiting])
    case Pop(w) =>
      s.(queue := s.queue[1..], popped := s.popped + [s.queue[0]], workers := s.workers[w := Popped(s.queue[0])])
    case UnlockQueue(w) => s.(lock := None, workers := s.workers[w := Running(s.workers[w].task)])
    case Finish(w) => s.(workers := s.workers[w := Waiting])
  }

  // ---- the invariant --------------------------------------------------------------------------

  /** Workers past sem_wait that have not popped yet. */
  function Claims<T>(workers: map<Thread, WorkerPc<T>>): set<Thread> {
    set w | w in workers && (workers[w].Woken? || workers[w].Locked?)
  }

  /** Producers that have pushed and not yet posted. */
  function Unposted<T>(producers: map<Thread, ProducerPc<T>>): set<Thread> {
    set p | p in producers && (producers[p].Pushed? || producers[p].ToPost?)
  }

  /** The mutex is held by exactly the thread whose program counter is inside the critical section. */
  ghost predicate Exclusion<T>(s: State<T>) {
    && (forall p :: p in s.producers ==>
          ((s.producers[p].HasLock? || s.producers[p].Pushed?) <==> s.lock == Some(Producer(p))))
    && (forall w :: w in s.workers ==>
          ((s.workers[w].Locked? || s.workers[w].Popped?) <==> s.lock == Some(Worker(w))))
    && match s.lock
       case None => true
       case Some(Producer(p)) => p in s.producers
       case Some(Worker(w)) => w in s.workers
  }

  ghost predicate Inv<T>(s: State<T>, max: nat) {
    && Exclusion(s)
    && |s.queue| == s.sem + |Claims(s.workers)| + |Unposted(s.producers)|
    && |s.queue| <= max + 1
    && s.popped + s.queue == s.accepted
  }

  lemma ProducerMoves<T>(producers: map<Thread, ProducerPc<T>>, p: Thread, pc: ProducerPc<T>)
    requires p in producers
    ensures Unposted(producers[p := pc]) ==
            if pc.Pushed? || pc.ToPost? then Unposted(producers) + {p} else Unposted(producers) - {p}
  {
  }

  lemma WorkerMoves<T>(workers: map<Thread, WorkerPc<T>>, w: Thread, pc: WorkerPc<T>)
    requires w in workers
    ensures Claims(workers[w := pc]) ==
            if pc.Woken? || pc.Locked? then Claims(workers) + {w} else Claims(workers) - {w}
  {
  }

  /** The branch for an empty queue is never taken. */
  lemma QueueNotEmpty<T>(s: State<T>, max: nat, w: Thread)
    requires Inv(s, max) && w in s.workers && s.workers[w].Locked?
    ensures s.queue != []
  {
    assert w in Claims(s.workers);
  }

  lemma StepKeepsExclusion<T>(s: State<T>, max: nat, step: Step<T>)
    requires Exclusion(s) && Enabled(s, max, step)
    ensures Exclusion(Apply(s, max, step))
  {
  }

  predicate ByProducer<T>(step: Step<T>) {
    step.Call? || step.Lock? || step.Refuse? || step.Push? || step.Unlock? || step.Post?
  }

  lemma ProducerStepKeepsCount<T>(s: State<T>, max: nat, step: Step<T>)
    requires |s.queue| == s.sem + |Claims(s.workers)| + |Unposted(s.producers)|
    requires Enabled(s, max, step) && ByProducer(step)
    ensures var s' := Apply(s, max, step);
            |s'.queue| == s'.sem + |Claims(s'.workers)| + |Unposted(s'.producers)|
  {
    var s' := Apply(s, max, step);
    ProducerMoves(s.producers, step.p, s'.producers[step.p]);
    assert s'.producers == s.producers[step.p := s'.producers[step.p]];
  }

  lemma ProducerStepKeepsInv<T>(s: State<T>, max: nat, step: Step<T>)
    requires Inv(s, max) && Enabled(s, max, step) && ByProducer(step)
    ensures Inv(Apply(s, max, step), max)
  {
    hide Claims, Unposted, Exclusion;
    StepKeepsExclusion(s, max, step);
    ProducerStepKeepsCount(s, max, step);
    var s' := Apply(s, max, step);
    if step.Push? {
      assert s'.popped + s'.queue == s.popped + s.queue + [s.producers[step.p].task];
    }
  }

  lemma WorkerStepKeepsCount<T>(s: State<T>, max: nat, step: Step<T>)
    requires |s.queue| == s.sem + |Claims(s.workers)| + |Unposted(s.producers)|
    requires Enabled(s, max, step) && !ByProducer(step) && !step.FindEmpty?
    ensures var s' := Apply(s, max, step);
            |s'.queue| == s'.sem + |Claims(s'.workers)| + |Unposted(s'.producers)|
  {
    var s' := Apply(s, max, step);
    var pc := s'.workers[step.w];
    WorkerMoves(s.workers, step.w, pc);
    assert s'.workers == s.workers[step.w := pc];
    assert step.w in Claims(s.workers) <==> s.workers[step.w].Woken? || s.workers[step.w].Locked?;
    hide Claims, Unposted;
    match step
    case Wake(w) => assert Claims(s'.workers) == Claims(s.workers) + {w};
    case LockQueue(w) => assert Claims(s'.workers) == Claims(s.workers);
    case Pop(w) => assert Claims(s'.workers) == Claims(s.workers) - {w};
    case UnlockQueue(w) => assert Claims(s'.workers) == Claims(s.workers);
    case Finish(w) => assert Claims(s'.workers) == Claims(s.workers);
  }

  lemma WorkerStepKeepsInv<T>(s: State<T>, max: nat, step: Step<T>)
    requires Inv(s, max) && Enabled(s, max, step) && !ByProducer(step)
    ensures Inv(Apply(s, max, step), max)
  {
    hide Claims, Unposted, Exclusion;
    if step.FindEmpty? {
      QueueNotEmpty(s, max, step.w);
    } else {
      StepKeepsExclusion(s, max, step);
      WorkerStepKeepsCount(s, max, step);
      var s' := Apply(s, max, step);
      if step.Pop? {
        assert s.queue == [s.queue[0]] + s.queue[1..];
        assert s'.popped + s'.queue == s.popped + ([s.queue[0]] + s.queue[1..]);
      }
    }
  }

  lemma StepKeepsInv<T>(s: State<T>, max: nat, step: Step<T>)
    requires Inv(s, max) && Enabled(s, max, step)
    ensures Inv(Apply(s, max, step), max)
  {
    if ByProducer(step) {
      ProducerStepKeepsInv(s, max, step);
    } else {
      WorkerStepKeepsInv(s, max, step);
    }
  }

  // ---- runs -----------------------------------------------------------------------------------

  predicate Runs<T(==)>(s: State<T>, max: nat, steps: seq<Step<T>>)
    decreases |steps|
  {
    steps == [] || (Enabled(s, max, steps[0]) && Runs(Apply(s, max, steps[0]), max, steps[1..]))
  }

  function After<T>(s: State<T>, max: nat, steps: seq<Step<T>>): State<T>
    requires Runs(s, max, steps)
    decreases |steps|
  {
    if steps == [] then s else After(Apply(s, max, steps[0]), max, steps[1..])
  }

  lemma {:induction false} RunKeepsInv<T>(s: State<T>, max: nat, steps: seq<Step<T>>)
    requires Inv(s, max) && Runs(s, max, steps)
    ensures Inv(After(s, max, steps), max)
    decreases |steps|
  {
    if steps != [] {
      StepKeepsInv(s, max, steps[0]);
      RunKeepsInv(Apply(s, max, steps[0]), max, steps[1..]);
    }
  }

  /** In every interleaving: the semaphore accounts for the queue, tasks leave in the order they
      were accepted, and the queue holds at most one task more than the configured maximum. */
  lemma PoolIsSound<T>(s: State<T>, max: nat, steps: seq<Step<T>>)
    requires Initial(s) && Runs(s, max, steps)
    ensures var s' := After(s, max, steps);
            && |s'.queue| == s'.sem + |Claims(s'.workers)| + |Unposted(s'.producers)|
            && |s'.queue| <= max + 1
            && s'.popped + s'.queue == s'.accepted
            && (forall w :: w in s'.workers ==> !Enabled(s', max, FindEmpty(w)))
  {
    assert Claims(s.workers) == {} && Unposted(s.producers) == {};
    RunKeepsInv(s, max, steps);
    var s' := After(s, max, steps);
    forall w | w in s'.workers ensures !Enabled(s', max, FindEmpty(w)) {
      if s'.workers[w].Locked? {
        QueueNotEmpty(s', max, w);
      }
    }
  }

  /** No task is stranded: if work is queued and nobody is on the way to it or about to announce it,
      every waiting worker can proceed. */
  lemma NoStrandedTask<T>(s: State<T>, max: nat, steps: seq<Step<T>>, w: Thread)
    requires Initial(s) && Runs(s, max, steps)
    requires var s' := After(s, max, steps);
             && s'.queue != [] && Claims(s'.workers) == {} && Unposted(s'.producers) == {}
             && w in s'.workers && s'.workers[w].Waiting?
    ensures Enabled(After(s, max, steps), max, Wake(w))
  {
    PoolIsSound(s, max, steps);
  }

  /** The task of the producer's last call. */
  function LastCall<T>(steps: seq<Step<T>>, p: Thread): Option<T> {
    if steps == [] then None
    else
      var last := steps[|steps| - 1];
      if last.Call? && last.p == p then Some(last.task) else LastCall(steps[..|steps| - 1], p)
  }

  /** The tasks that the pushes of a run put into the queue behind `before`: each that of its
      producer's last call, `called` being the steps so far. */
  function Offered<T>(before: seq<Option<T>>, called: seq<Step<T>>, steps: seq<Step<T>>): seq<Option<T>>
    decreases |steps|
  {
    if steps == [] then before
    else
      Offered(if steps[0].Push? then before + [LastCall(called, steps[0].p)] else before,
              called + [steps[0]], steps[1..])
  }

  /** A producer inside append carries the task of its last call. */
  ghost predicate Carries<T>(s: State<T>, called: seq<Step<T>>) {
    forall p :: p in s.producers && !s.producers[p].Away? ==> LastCall(called, p) == Some(s.producers[p].task)
  }

  function Wrapped<T>(tasks: seq<T>): seq<Option<T>> { seq(|tasks|, i requires 0 <= i < |tasks| => Some(tasks[i])) }

  lemma StepCarries<T>(s: State<T>, max: nat, called: seq<Step<T>>, step: Step<T>)
    requires Carries(s, called) && Enabled(s, max, step)
    ensures Carries(Apply(s, max, step), called + [step])
    ensures Wrapped(Apply(s, max, step).accepted) ==
            Wrapped(s.accepted) + if step.Push? then [LastCall(called, step.p)] else []
  {
    assert (called + [step])[..|called|] == called;
  }

  lemma {:induction false} RunOffers<T>(s: State<T>, max: nat, called: seq<Step<T>>, steps: seq<Step<T>>)
    requires Carries(s, called) && Runs(s, max, steps)
    ensures Wrapped(After(s, max, steps).accepted) == Offered(Wrapped(s.accepted), called, steps)
    decreases |steps|
  {
    if steps != [] {
      StepCarries(s, max, called, steps[0]);
      assert Wrapped(s.accepted) + [] == Wrapped(s.accepted);
      hide Apply, Enabled, Carries, Wrapped, LastCall;
      RunOffers(Apply(s, max, steps[0]), max, called + [steps[0]], steps[1..]);
    }
  }

  /** What is accepted, and so what comes out of the queue, is what the callers of append have passed
      to it, one task for every push, in the order of the pushes. */
  lemma AcceptedWasOffered<T>(s: State<T>, max: nat, steps: seq<Step<T>>)
    requires Initial(s) && Runs(s, max, steps)
    ensures Wrapped(After(s, max, steps).accepted) == Offered([], [], steps)
  {
    assert Wrapped(s.accepted) == [];
    RunOffers(s, max, [], steps);
    hide Runs, After, Offered, Wrapped;
  }

  predicate ProducerCanGoOn<T(==)>(s: State<T>, max: nat, p: Thread, task: T)
    requires p in s.producers
  {
    match s.producers[p]
    case Away => Enabled(s, max, Call(p, task))
    case WantLock(_) => s.lock == None ==> Enabled(s, max, Lock(p))
    case HasLock(_) => if |s.queue| == max + 1 then Enabled(s, max, Refuse(p)) else Enabled(s, max, Push(p))
    case Pushed(_) => Enabled(s, max, Unlock(p))
    case ToPost(_) => Enabled(s, max, Post(p))
  }

  predicate WorkerCanGoOn<T(==)>(s: State<T>, max: nat, w: Thread)
    requires w in s.workers
  {
    match s.workers[w]
    case Waiting => s.sem > 0 ==> Enabled(s, max, Wake(w))
    case Woken => s.lock == None ==> Enabled(s, max, LockQueue(w))
    case Locked => Enabled(s, max, Pop(w))
    case Popped(_) => Enabled(s, max, UnlockQueue(w))
    case Running(_) => Enabled(s, max, Finish(w))
  }

  predicate OwnerIsInside<T>(s: State<T>) {
    match s.lock
    case None => true
    case Some(Producer(p)) => p in s.producers && (s.producers[p].HasLock? || s.producers[p].Pushed?)
    case Some(Worker(w)) => w in s.workers && (s.workers[w].Locked? || s.workers[w].Popped?)
  }

  lemma InvLetsGoOn<T>(s: State<T>, max: nat, task: T)
    requires Inv(s, max)
    ensures forall p :: p in s.producers ==> ProducerCanGoOn(s, max, p, task)
    ensures forall w :: w in s.workers ==> WorkerCanGoOn(s, max, w)
    ensures OwnerIsInside(s)
  {
    forall w | w in s.workers ensures WorkerCanGoOn(s, max, w) {
      if s.workers[w].Locked? {
        QueueNotEmpty(s, max, w);
      }
    }
  }

  /** Nobody is ever stuck: whoever holds the mutex is inside and can go on, with the push or the
      refusal that the length of the queue calls for, or with a task; whoever wants it can have it
      when it is free; and whoever is past it can finish. */
  lemma EveryoneCanGoOn<T>(s: State<T>, max: nat, steps: seq<Step<T>>, task: T)
    requires Initial(s) && Runs(s, max, steps)
    ensures var t := After(s, max, steps);
            && (forall p :: p in t.producers ==> ProducerCanGoOn(t, max, p, task))
            && (forall w :: w in t.workers ==> WorkerCanGoOn(t, max, w))
            && OwnerIsInside(t)
  {
    assert Claims(s.workers) == {} && Unposted(s.producers) == {};
    RunKeepsInv(s, max, steps);
    hide Runs, After, Inv, Enabled;
    InvLetsGoOn(After(s, max, steps), max, task);
  }

  // ---- the bound is reached -------------------------------------------------------------------

  function AppendSteps<T>(p: Thread, task: T, rest: seq<Step<T>>): seq<Step<T>> {
    [Call(p, task)] + ([Lock(p)] + ([Push(p)] + ([Unlock(p)] + ([Post(p)] + rest))))
  }

  function FillSteps<T>(p: Thread, task: T, n: nat): seq<Step<T>> {
    if n == 0 then [] else AppendSteps(p, task, FillSteps(p, task, n - 1))
  }

  /** The state after one more task has been accepted. */
  function Grown<T>(s: State<T>, task: T): State<T> {
    s.(queue := s.queue + [task], accepted := s.accepted + [task], sem := s.sem + 1)
  }

  lemma OneAppend<T>(s: State<T>, max: nat, p: Thread, task: T, rest: seq<Step<T>>)
    requires p in s.producers && s.producers[p].Away? && s.lock == None && |s.queue| <= max
    requires Runs(Grown(s, task), max, rest)
    ensures Runs(s, max, AppendSteps(p, task, rest))
    ensures After(s, max, AppendSteps(p, task, rest)) == After(Grown(s, task), max, rest)
  {
    var s1 := Apply(s, max, Call(p, task));
    var s2 := Apply(s1, max, Lock(p));
    var last := [Push(p)] + ([Unlock(p)] + ([Post(p)] + rest));
    assert s2 == s.(lock := Some(Producer(p)), producers := s.producers[p := HasLock(task)]);
    assert s.producers[p := Away] == s.producers;
    OnePush(s2, max, p, Grown(s, task), rest);
    hide Apply, Enabled, Runs, After, Grown;
    Prepend(s1, max, Lock(p), last);
    Prepend(s, max, Call(p, task), [Lock(p)] + last);
  }

  lemma OnePush<T>(s: State<T>, max: nat, p: Thread, s': State<T>, rest: seq<Step<T>>)
    requires p in s.producers && s.producers[p].HasLock? && |s.queue| <= max
    requires s' == Grown(s, s.producers[p].task).(lock := None, producers := s.producers[p := Away])
    requires Runs(s', max, rest)
    ensures var steps := [Push(p)] + ([Unlock(p)] + ([Post(p)] + rest));
            Runs(s, max, steps) && After(s, max, steps) == After(s', max, rest)
  {
    var s1 := Apply(s, max, Push(p));
    var s2 := Apply(s1, max, Unlock(p));
    var s3 := Apply(s2, max, Post(p));
    assert s3.producers == s'.producers;
    assert s3 == s';
    hide Apply, Enabled, Runs, After, Grown;
    Prepend(s2, max, Post(p), rest);
    Prepend(s1, max, Unlock(p), [Post(p)] + rest);
    Prepend(s, max, Push(p), [Unlock(p)] + ([Post(p)] + rest));
  }

  lemma Prepend<T>(s: State<T>, max: nat, step: Step<T>, rest: seq<Step<T>>)
    requires Enabled(s, max, step) && Runs(Apply(s, max, step), max, rest)
    ensures Runs(s, max, [step] + rest) && After(s, max, [step] + rest) == After(Apply(s, max, step), max, rest)
  {
  }

  lemma {:induction false} FillsUp<T>(s: State<T>, max: nat, p: Thread, task: T, n: nat)
    requires p in s.producers && s.producers[p].Away? && s.lock == None && |s.queue| + n <= max + 1
    ensures Runs(s, max, FillSteps(p, task, n))
    ensures |After(s, max, FillSteps(p, task, n)).queue| == |s.queue| + n
    decreases n
  {
    if n > 0 {
      FillsUp(Grown(s, task), max, p, task, n - 1);
      OneAppend(s, max, p, task, FillSteps(p, task, n - 1));
    }
  }

  /** The bound is tight: one producer alone fills the queue to one more than the maximum. */
  lemma QueueBoundIsTight<T>(s: State<T>, max: nat, p: Thread, task: T)
    requires Initial(s) && p in s.producers
    ensures Runs(s, max, FillSteps(p, task, max + 1))
    ensures |After(s, max, FillSteps(p, task, max + 1)).queue| == max + 1
  {
    FillsUp(s, max, p, task, max + 1);
  }
}
