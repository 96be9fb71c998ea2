/**
  The RPC worker pool as a transition system: any number of workers and producers, one mutex, one
  condition variable, every schedule.  The shared queue is the contents of RpcQueue.Queue.
 */
module RpcWorkers {
  import opened Words
  import opened RpcQueue
  import opened Tally

  /** A request; `callable` says whether its service has a callback. */
  datatype Req = Req(id: nat, callable: bool)

  /** Where a worker is in its loop. */
  datatype Worker =
    | AtLock                            // about to lock in dequeue
    | AtDequeue                         // holds the lock, before __dequeue
    | AtWait                            // holds the lock, found nothing, before pthread_cond_wait
    | Blocked                           // inside the wait, lock released
    | Woken                             // signalled or woken for no reason, must lock again
    | AtUnlock(req: Option<Req>)        // holds the lock, before unlock
    | AtCall(todo: Req)                 // before the callback
    | AtFree(done: Req)                 // before free

  /** Where a thread calling enqueue_req is. */
  datatype Producer =
    | Idle
    | PLock(req: Req)
    | PEnqueue(req: Req)                // holds the lock
    | PSignal                           // holds the lock, request queued
    | PUnlock                           // holds the lock

  datatype Thread = W(i: nat) | P(p: nat)

  datatype State = State(
    cap: nat,
    lock: Option<Thread>,
    queue: seq<Req>,
    workers: seq<Worker>,
    producers: seq<Producer>,
    // what an observer has seen, in order; pairs name the worker
    submitted: seq<Req>,
    accepted: seq<Req>,
    dropped: seq<Req>,
    taken: seq<(nat, Req)>,
    executed: seq<(nat, Req)>,
    freed: seq<(nat, Req)>)

  datatype Step =
    | Lock(i: nat)
    | TryDequeue(i: nat)
    | Wait(i: nat)
    | Spurious(i: nat)
    | Relock(i: nat)
    | Unlock(i: nat)
    | Call(i: nat)
    | Free(i: nat)
    | Submit(p: nat, callable: bool)
    | ProducerLock(p: nat)
    | TryEnqueue(p: nat)
    | Signal(p: nat, i: nat)
    | ProducerUnlock(p: nat)

  /** `workers_init`: an empty queue of `cap + 1` cells, every worker at the top of its loop. */
  function Init(cap: nat, workers: nat, producers: nat): State {
    State(cap, None, [], seq(workers, i => AtLock), seq(producers, i => Idle), [], [], [], [], [], [])
  }

  predicate AnyBlocked(ws: seq<Worker>) {
    exists k :: 0 <= k < |ws| && ws[k].Blocked?
  }

  predicate Enabled(s: State, step: Step) {
    match step
    case Lock(i) => i < |s.workers| && s.workers[i].AtLock? && s.lock.None?
    case TryDequeue(i) => i < |s.workers| && s.workers[i].AtDequeue?
    case Wait(i) => i < |s.workers| && s.workers[i].AtWait?
    case Spurious(i) => i < |s.workers| && s.workers[i].Blocked?
    case Relock(i) => i < |s.workers| && s.workers[i].Woken? && s.lock.None?
    case Unlock(i) => i < |s.workers| && s.workers[i].AtUnlock?
    case Call(i) => i < |s.workers| && s.workers[i].AtCall?
    case Free(i) => i < |s.workers| && s.workers[i].AtFree?
    case Submit(p, _) => p < |s.producers| && s.producers[p].Idle?
    case ProducerLock(p) => p < |s.producers| && s.producers[p].PLock? && s.lock.None?
    case TryEnqueue(p) => p < |s.producers| && s.producers[p].PEnqueue?
    // a signal wakes one blocked worker if there is any; waking more is a signal and spurious wakeups
    case Signal(p, i) =>
      && p < |s.producers| && s.producers[p].PSignal?
      && (AnyBlocked(s.workers) ==> i < |s.workers| && s.workers[i].Blocked?)
    case ProducerUnlock(p) => p < |s.producers| && s.producers[p].PUnlock?
  }

  function Apply(s: State, step: Step): State
    requires Enabled(s, step)
  {
    match step
    case Lock(i) => s.(workers := s.workers[i := AtDequeue], lock := Some(W(i)))
    case TryDequeue(i) =>
      if s.queue == [] then s.(workers := s.workers[i := AtWait])
      else s.(workers := s.workers[i := AtUnlock(Some(s.queue[0]))],
              queue := s.queue[1..],
              taken := s.taken + [(i, s.queue[0])])
    case Wait(i) => s.(workers := s.workers[i := Blocked], lock := None)
    case Spurious(i) => s.(workers := s.workers[i := Woken])
    case Relock(i) => s.(workers := s.workers[i := AtUnlock(None)], lock := Some(W(i)))
    case Unlock(i) =>
      s.(workers := s.workers[i := match s.workers[i].req case None => AtLock case Some(r) => AtCall(r)],
         lock := None)
    case Call(i) =>
      var r := s.workers[i].todo;
      s.(workers := s.workers[i := AtFree(r)],
         executed := if r.callable then s.executed + [(i, r)] else s.executed)
    case Free(i) =>
      s.(workers := s.workers[i := AtLock], freed := s.freed + [(i, s.workers[i].done)])
    case Submit(p, callable) =>
      var r := Req(|s.submitted|, callable);
      s.(producers := s.producers[p := PLock(r)], submitted := s.submitted + [r])
    case ProducerLock(p) =>
      s.(producers := s.producers[p := PEnqueue(s.producers[p].req)], lock := Some(P(p)))
    case TryEnqueue(p) =>
      var r := s.producers[p].req;
      if |s.queue| >= s.cap
      then s.(producers := s.producers[p := PUnlock], dropped := s.dropped + [r])
      else s.(producers := s.producers[p := PSignal], queue := s.queue + [r], accepted := s.accepted + [r])
    case Signal(p, i) =>
      var s1 := s.(producers := s.producers[p := PUnlock]);
      if AnyBlocked(s.workers) then s1.(workers := s.workers[i := Woken]) else s1
    case ProducerUnlock(p) => s.(producers := s.producers[p := Idle], lock := None)
  }

  // ---------- the mutex ----------

  predicate WHolds(w: Worker) {
    w.AtDequeue? || w.AtWait? || w.AtUnlock?
  }

  predicate PHolds(p: Producer) {
    p.PEnqueue? || p.PSignal? || p.PUnlock?
  }

  /** Exactly the owner recorded in the mutex is inside a critical section. */
  ghost predicate LockInv(s: State) {
    && (forall i :: 0 <= i < |s.workers| ==> (WHolds(s.workers[i]) <==> s.lock == Some(W(i))))
    && (forall p :: 0 <= p < |s.producers| ==> (PHolds(s.producers[p]) <==> s.lock == Some(P(p))))
    && (s.lock.Some? && s.lock.value.W? ==> s.lock.value.i < |s.workers|)
    && (s.lock.Some? && s.lock.value.P? ==> s.lock.value.p < |s.producers|)
  }

  lemma LockKept(s: State, step: Step)
    requires LockInv(s) && Enabled(s, step)
    ensures LockInv(Apply(s, step))
  {
  }

  // ---------- no lost wakeup ----------

  /** Workers that will look at the queue before they can block. */
  function ReadyOne(w: Worker): nat {
    if w.AtLock? || w.AtDequeue? || w.Woken? || (w.AtUnlock? && w.req.None?) then 1 else 0
  }

  function Ready(s: State): nat {
    Sum(ReadyOne, s.workers)
  }

  /** A producer between queueing its request and signalling. */
  function SignalOne(p: Producer): nat {
    if p.PSignal? then 1 else 0
  }

  function Signals(s: State): nat {
    Sum(SignalOne, s.producers)
  }

  ghost predicate WaitersEmpty(s: State) {
    forall i :: 0 <= i < |s.workers| && s.workers[i].AtWait? ==> s.queue == []
  }

  ghost predicate WakeInv(s: State) {
    && WaitersEmpty(s)
    && (AnyBlocked(s.workers) ==> |s.queue| <= Ready(s) + Signals(s))
  }

  lemma WorkerWake(s: State, step: Step)
    requires LockInv(s) && WakeInv(s) && Enabled(s, step)
    requires !ByProducer(step) && !step.Signal?
    ensures WakeInv(Apply(s, step))
  {
    var s' := Apply(s, step);
    var i := step.i;
    SumUpdate(ReadyOne, s.workers, i, s'.workers[i]);
    forall k | 0 <= k < |s'.workers| && s'.workers[k].AtWait?
      ensures s'.queue == []
    {
      assert k != i ==> s.workers[k].AtWait?;
    }
    if AnyBlocked(s'.workers) && !step.Wait? {
      var k :| 0 <= k < |s'.workers| && s'.workers[k].Blocked?;
      assert s.workers[k].Blocked?;
    }
  }

  lemma ProducerWake(s: State, step: Step)
    requires LockInv(s) && WakeInv(s) && Enabled(s, step)
    requires ByProducer(step) || step.Signal?
    ensures WakeInv(Apply(s, step))
  {
    var s' := Apply(s, step);
    var p := step.p;
    SumUpdate(SignalOne, s.producers, p, s'.producers[p]);
    if step.Signal? && AnyBlocked(s.workers) {
      SumUpdate(ReadyOne, s.workers, step.i, Woken);
    }
    forall k | 0 <= k < |s'.workers| && s'.workers[k].AtWait?
      ensures s'.queue == []
    {
      assert s.workers[k].AtWait?;
    }
    if AnyBlocked(s'.workers) {
      var k :| 0 <= k < |s'.workers| && s'.workers[k].Blocked?;
      assert s.workers[k].Blocked?;
    }
  }

  // ---------- every request is in one place ----------

  function HeldOne(i: nat, w: Worker): multiset<(nat, Req)> {
    match w
    case AtUnlock(Some(r)) => multiset{(i, r)}
    case AtCall(r) => multiset{(i, r)}
    case AtFree(r) => multiset{(i, r)}
    case _ => multiset{}
  }

  /** Requests being processed, with their worker. */
  function Held(s: State): multiset<(nat, Req)> {
    Bag(HeldOne, s.workers)
  }

  function RanOne(i: nat, w: Worker): multiset<(nat, Req)> {
    if w.AtFree? && w.done.callable then multiset{(i, w.done)} else multiset{}
  }

  function OfferedOne(p: nat, t: Producer): multiset<Req> {
    match t
    case PLock(r) => multiset{r}
    case PEnqueue(r) => multiset{r}
    case _ => multiset{}
  }

  /** Requests still in the hands of a producer. */
  function Offered(s: State): multiset<Req> {
    Bag(OfferedOne, s.producers)
  }

  function CallableOnly(log: seq<(nat, Req)>): multiset<(nat, Req)> {
    if log == [] then multiset{}
    else
      var last := log[|log| - 1];
      CallableOnly(log[..|log| - 1]) + if last.1.callable then multiset{last} else multiset{}
  }

  function Requests(log: seq<(nat, Req)>): (rs: seq<Req>)
    ensures |rs| == |log|
  {
    seq(|log|, k requires 0 <= k < |log| => log[k].1)
  }

  /** First in, first out: what was taken, then what is queued, is what was accepted. */
  ghost predicate FifoInv(s: State) {
    s.accepted == Requests(s.taken) + s.queue && |s.queue| <= s.cap
  }

  /** A request taken is being processed by that worker or was freed by it. */
  ghost predicate TakenInv(s: State) {
    multiset(s.taken) == multiset(s.freed) + Held(s)
  }

  /** The callbacks run are those of the freed requests, and of the requests about to be freed. */
  ghost predicate RanInv(s: State) {
    multiset(s.executed) == CallableOnly(s.freed) + Bag(RanOne, s.workers)
  }

  ghost predicate SubmitInv(s: State) {
    && multiset(s.submitted) == multiset(s.accepted) + multiset(s.dropped) + Offered(s)
    && forall k :: 0 <= k < |s.submitted| ==> s.submitted[k].id == k
  }

  lemma FifoKept(s: State, step: Step)
    requires FifoInv(s) && Enabled(s, step)
    ensures FifoInv(Apply(s, step))
  {
    var s' := Apply(s, step);
    if step.TryDequeue? && s.queue != [] {
      assert Requests(s'.taken) == Requests(s.taken) + [s.queue[0]];
      assert s.queue == [s.queue[0]] + s.queue[1..];
    } else if step.TryEnqueue? && |s.queue| < s.cap {
      assert s'.accepted == Requests(s.taken) + (s.queue + [s.producers[step.p].req]);
    }
  }

  predicate ByProducer(step: Step) {
    step.Submit? || step.ProducerLock? || step.TryEnqueue? || step.ProducerUnlock?
  }

  /** What a step adds to a log, as a bag. */
  function Taking(s: State, step: Step): multiset<(nat, Req)>
    requires Enabled(s, step)
  {
    if step.TryDequeue? && s.queue != [] then multiset{(step.i, s.queue[0])} else multiset{}
  }

  function Freeing(s: State, step: Step): multiset<(nat, Req)>
    requires Enabled(s, step)
  {
    if step.Free? then multiset{(step.i, s.workers[step.i].done)} else multiset{}
  }

  function Running(s: State, step: Step): multiset<(nat, Req)>
    requires Enabled(s, step)
  {
    if step.Call? && s.workers[step.i].todo.callable then multiset{(step.i, s.workers[step.i].todo)} else multiset{}
  }

  function FreeingCallable(s: State, step: Step): multiset<(nat, Req)>
    requires Enabled(s, step)
  {
    if step.Free? && s.workers[step.i].done.callable then Freeing(s, step) else multiset{}
  }

  function Submitting(s: State, step: Step): multiset<Req>
    requires Enabled(s, step)
  {
    if step.Submit? then multiset{Req(|s.submitted|, step.callable)} else multiset{}
  }

  function Settling(s: State, step: Step): multiset<Req>
    requires Enabled(s, step)
  {
    if step.TryEnqueue? then multiset{s.producers[step.p].req} else multiset{}
  }

  lemma LogsGrow(s: State, step: Step)
    requires Enabled(s, step)
    ensures multiset(Apply(s, step).taken) == multiset(s.taken) + Taking(s, step)
    ensures multiset(Apply(s, step).freed) == multiset(s.freed) + Freeing(s, step)
  {
  }

  lemma ExecutedGrows(s: State, step: Step)
    requires Enabled(s, step)
    ensures multiset(Apply(s, step).executed) == multiset(s.executed) + Running(s, step)
  {
  }

  lemma SubmittedGrows(s: State, step: Step)
    requires Enabled(s, step)
    ensures multiset(Apply(s, step).submitted) == multiset(s.submitted) + Submitting(s, step)
    ensures forall k :: 0 <= k < |Apply(s, step).submitted| ==>
              Apply(s, step).submitted[k] == if k < |s.submitted| then s.submitted[k] else Req(k, step.callable)
  {
  }

  lemma CallableGrows(s: State, step: Step)
    requires Enabled(s, step)
    ensures CallableOnly(Apply(s, step).freed) == CallableOnly(s.freed) + FreeingCallable(s, step)
  {
    if step.Free? {
      var freed' := Apply(s, step).freed;
      assert freed'[..|freed'| - 1] == s.freed;
    }
  }

  /** A try to enqueue settles its request: accepted or dropped. */
  lemma SettledGrows(s: State, step: Step)
    requires Enabled(s, step)
    ensures multiset(Apply(s, step).accepted) + multiset(Apply(s, step).dropped)
            == (multiset(s.accepted) + multiset(s.dropped)) + Settling(s, step)
  {
  }

  /** At most one worker moves; what it holds changes by what enters and leaves the logs. */
  lemma WorkerMoves(s: State, step: Step)
    requires Enabled(s, step)
    ensures var s' := Apply(s, step);
            s'.workers == s.workers ||
            (!ByProducer(step) && step.i < |s.workers| && s'.workers == s.workers[step.i := s'.workers[step.i]])
    ensures Apply(s, step).workers == s.workers ==>
              Taking(s, step) == Freeing(s, step) == Running(s, step) == FreeingCallable(s, step) == multiset{}
  {
  }

  lemma HeldMoves(s: State, step: Step)
    requires Enabled(s, step) && !ByProducer(step) && step.i < |s.workers|
    ensures Taking(s, step) + HeldOne(step.i, s.workers[step.i])
            == Freeing(s, step) + HeldOne(step.i, Apply(s, step).workers[step.i])
  {
  }

  lemma RanMoves(s: State, step: Step)
    requires Enabled(s, step) && !ByProducer(step) && step.i < |s.workers|
    ensures Running(s, step) + RanOne(step.i, s.workers[step.i])
            == FreeingCallable(s, step) + RanOne(step.i, Apply(s, step).workers[step.i])
  {
  }

  lemma TakenKept(s: State, step: Step)
    requires TakenInv(s) && Enabled(s, step)
    ensures TakenInv(Apply(s, step))
  {
    LogsGrow(s, step);
    WorkerMoves(s, step);
    var s' := Apply(s, step);
    hide Bag, Apply, Enabled, Taking, Freeing, HeldOne;
    if s'.workers != s.workers {
      HeldMoves(s, step);
      BagUpdate(HeldOne, s.workers, step.i, s'.workers[step.i]);
      Rebalance(multiset(s.taken), multiset(s.freed), Held(s), Held(s'),
                HeldOne(step.i, s.workers[step.i]), HeldOne(step.i, s'.workers[step.i]),
                Taking(s, step), Freeing(s, step));
    }
  }

  lemma RanKept(s: State, step: Step)
    requires RanInv(s) && Enabled(s, step)
    ensures RanInv(Apply(s, step))
  {
    ExecutedGrows(s, step);
    CallableGrows(s, step);
    WorkerMoves(s, step);
    var s' := Apply(s, step);
    hide Bag, Apply, Enabled, Running, FreeingCallable, RanOne, CallableOnly;
    if s'.workers != s.workers {
      RanMoves(s, step);
      BagUpdate(RanOne, s.workers, step.i, s'.workers[step.i]);
      Rebalance(multiset(s.executed), CallableOnly(s.freed), Bag(RanOne, s.workers), Bag(RanOne, s'.workers),
                RanOne(step.i, s.workers[step.i]), RanOne(step.i, s'.workers[step.i]),
                Running(s, step), FreeingCallable(s, step));
    }
  }

  lemma ProducerMoves(s: State, step: Step)
    requires Enabled(s, step)
    ensures var s' := Apply(s, step);
            s'.producers == s.producers ||
            ((ByProducer(step) || step.Signal?) && step.p < |s.producers|
             && s'.producers == s.producers[step.p := s'.producers[step.p]])
    ensures Apply(s, step).producers == s.producers ==> Submitting(s, step) == Settling(s, step) == multiset{}
  {
  }

  lemma OfferedMoves(s: State, step: Step)
    requires Enabled(s, step) && (ByProducer(step) || step.Signal?)
    ensures Submitting(s, step) + OfferedOne(step.p, s.producers[step.p])
            == Settling(s, step) + OfferedOne(step.p, Apply(s, step).producers[step.p])
  {
  }

  lemma SubmitKept(s: State, step: Step)
    requires SubmitInv(s) && Enabled(s, step)
    ensures SubmitInv(Apply(s, step))
  {
    hide Bag, Apply, Enabled, Submitting, Settling, OfferedOne;
    SubmittedGrows(s, step);
    SettledGrows(s, step);
    ProducerMoves(s, step);
    var s' := Apply(s, step);
    var settled := multiset(s.accepted) + multiset(s.dropped);
    if s'.producers != s.producers {
      OfferedMoves(s, step);
      BagUpdate(OfferedOne, s.producers, step.p, s'.producers[step.p]);
      Rebalance(multiset(s.submitted), settled, Offered(s), Offered(s'),
                OfferedOne(step.p, s.producers[step.p]), OfferedOne(step.p, s'.producers[step.p]),
                Submitting(s, step), Settling(s, step));
    } else {
      assert Offered(s') == Offered(s);
      assert settled + multiset{} == settled;
    }
  }

  // ---------- runs ----------

  ghost predicate Inv(s: State) {
    LockInv(s) && WakeInv(s) && FifoInv(s) && TakenInv(s) && RanInv(s) && SubmitInv(s)
  }

  predicate Legal(s: State, steps: seq<Step>)
    decreases |steps|
  {
    steps == [] || (Enabled(s, steps[0]) && Legal(Apply(s, steps[0]), steps[1..]))
  }

  function Exec(s: State, steps: seq<Step>): State
    requires Legal(s, steps)
    decreases |steps|
  {
    if steps == [] then s else Exec(Apply(s, steps[0]), steps[1..])
  }

  lemma InitInv(cap: nat, workers: nat, producers: nat)
    ensures Inv(Init(cap, workers, producers))
  {
    var s := Init(cap, workers, producers);
    InitBags(s);
    hide Bag, Sum;
    assert FifoInv(s) && LockInv(s);
  }

  lemma InitBags(s: State)
    requires (forall i :: 0 <= i < |s.workers| ==> s.workers[i].AtLock?)
    requires (forall p :: 0 <= p < |s.producers| ==> s.producers[p].Idle?)
    ensures Held(s) == multiset{} && Bag(RanOne, s.workers) == multiset{} && Offered(s) == multiset{}
  {
    hide Bag;
    BagEmpty(HeldOne, s.workers);
    BagEmpty(RanOne, s.workers);
    BagEmpty(OfferedOne, s.producers);
  }

  lemma {:induction false} RunKeeps(s: State, steps: seq<Step>)
    requires Inv(s) && Legal(s, steps)
    ensures Inv(Exec(s, steps))
    decreases |steps|
  {
    hide Enabled, Apply, LockInv, WakeInv, FifoInv, TakenInv, RanInv, SubmitInv;
    if steps != [] {
      var step := steps[0];
      LockKept(s, step);
      if ByProducer(step) || step.Signal? {
        ProducerWake(s, step);
      } else {
        WorkerWake(s, step);
      }
      FifoKept(s, step);
      TakenKept(s, step);
      RanKept(s, step);
      SubmitKept(s, step);
      RunKeeps(Apply(s, step), steps[1..]);
    }
  }

  ghost predicate Reachable(s: State) {
    exists cap, workers, producers, steps ::
      Legal(Init(cap, workers, producers), steps) && Exec(Init(cap, workers, producers), steps) == s
  }

  lemma ReachableInv(s: State)
    requires Reachable(s)
    ensures Inv(s)
  {
    hide Inv;
    var cap, workers, producers, steps :|
      Legal(Init(cap, workers, producers), steps) && Exec(Init(cap, workers, producers), steps) == s;
    InitInv(cap, workers, producers);
    RunKeeps(Init(cap, workers, producers), steps);
  }

  // ---------- the queue of the model is the queue of the code ----------

  /** rpc_queue_t, with the requests it handed out and turned away so far. */
  datatype Circular = Circular(q: seq<Req>, head: nat, tail: nat, given: seq<Req>, refused: seq<Req>) {
    predicate Valid() {
      head < |q| && tail < |q|
    }

    /** `__enqueue`, on the array alone. */
    function Push(r: Req): (c: Circular)
      requires Valid()
      ensures c.Valid()
    {
      if Full(head, tail, |q|) then this.(refused := refused + [r])
      else this.(q := q[tail := r], tail := Next(tail, |q|))
    }

    /** `__dequeue`, on the array alone. */
    function Pop(): (c: Circular)
      requires Valid()
      ensures c.Valid()
    {
      if head == tail then this else this.(head := Next(head, |q|), given := given + [q[head]])
    }
  }

  /** What a step makes the code do to the array. */
  function OnArray(s: State, step: Step, c: Circular): (c': Circular)
    requires Enabled(s, step) && c.Valid()
    ensures c'.Valid()
  {
    if step.TryEnqueue? then c.Push(s.producers[step.p].req) else if step.TryDequeue? then c.Pop() else c
  }

  function ArrayRun(s: State, steps: seq<Step>, c: Circular): (c': Circular)
    requires Legal(s, steps) && c.Valid()
    ensures c'.Valid()
    decreases |steps|
  {
    if steps == [] then c else ArrayRun(Apply(s, steps[0]), steps[1..], OnArray(s, steps[0], c))
  }

  /** Between head and tail are the queued requests; the array gave and refused what the model did. */
  ghost predicate Represents(s: State, c: Circular) {
    && c.Valid() && |c.q| == s.cap + 1 && Between(c.q, c.head, c.tail) == s.queue
    && c.given == Requests(s.taken) && c.refused == s.dropped
  }

  /** Trying to enqueue is `__enqueue`: dropped by the test for full, else stored at the tail and accepted. */
  lemma EnqueueRefines(s: State, p: nat, c: Circular)
    requires FifoInv(s) && Represents(s, c) && Enabled(s, TryEnqueue(p))
    ensures var (s', r) := (Apply(s, TryEnqueue(p)), s.producers[p].req);
            && Represents(s', c.Push(r))
            && (Full(c.head, c.tail, |c.q|) ==> s'.producers[p].PUnlock? && s'.dropped == s.dropped + [r])
            && (!Full(c.head, c.tail, |c.q|) ==> s'.producers[p].PSignal? && s'.accepted == s.accepted + [r])
  {
    FullMeans(c.q, c.head, c.tail);
    if !Full(c.head, c.tail, |c.q|) {
      BetweenPush(c.q, c.head, c.tail, s.producers[p].req);
    }
    hide Full, Between, Requests;
  }

  /** Trying to dequeue is `__dequeue`: a wait when head meets tail, else the request at the head. */
  lemma DequeueRefines(s: State, i: nat, c: Circular)
    requires Represents(s, c) && Enabled(s, TryDequeue(i))
    ensures var s' := Apply(s, TryDequeue(i));
            && Represents(s', c.Pop())
            && s'.workers[i] == if c.head == c.tail then AtWait else AtUnlock(Some(c.q[c.head]))
  {
    if c.head != c.tail {
      BetweenPop(c.q, c.head, c.tail);
      assert Requests(s.taken + [(i, s.queue[0])]) == Requests(s.taken) + [s.queue[0]];
    }
    hide Between, Requests;
  }

  /** No other step touches the queue. */
  lemma OthersKeepQueue(s: State, step: Step, c: Circular)
    requires Represents(s, c) && Enabled(s, step) && !step.TryEnqueue? && !step.TryDequeue?
    ensures Represents(Apply(s, step), c)
  {
    hide Between, Requests;
  }

  /**
    Over every run: working the array as the code does leaves between head and tail exactly the
    queued requests, has handed out exactly the requests taken, in order, and refused those dropped.
   */
  lemma {:induction false} RunRepresented(s: State, steps: seq<Step>, c: Circular)
    requires FifoInv(s) && Represents(s, c) && Legal(s, steps)
    ensures Represents(Exec(s, steps), ArrayRun(s, steps, c))
    decreases |steps|
  {
    hide Enabled, Apply, FifoInv, Between, Full, Circular.Push, Circular.Pop, Requests;
    if steps != [] {
      var step := steps[0];
      FifoKept(s, step);
      if step.TryEnqueue? {
        EnqueueRefines(s, step.p, c);
      } else if step.TryDequeue? {
        DequeueRefines(s, step.i, c);
      } else {
        OthersKeepQueue(s, step, c);
      }
      RunRepresented(Apply(s, step), steps[1..], OnArray(s, step, c));
    }
  }

  /** From `rq_init`, whatever the cells held. */
  lemma CircularQueue(cap: nat, workers: nat, producers: nat, steps: seq<Step>, q: seq<Req>)
    requires |q| == cap + 1 && Legal(Init(cap, workers, producers), steps)
    ensures var s := Init(cap, workers, producers);
            Represents(Exec(s, steps), ArrayRun(s, steps, Circular(q, 0, 0, [], [])))
  {
    hide Legal, Exec, ArrayRun;
    var s := Init(cap, workers, producers);
    assert FifoInv(s) && Represents(s, Circular(q, 0, 0, [], []));
    RunRepresented(s, steps, Circular(q, 0, 0, [], []));
  }

  // ---------- what holds in every reachable state ----------

  /** At most one thread is ever between lock and unlock. */
  lemma MutualExclusion(s: State)
    requires Reachable(s)
    ensures forall i, j | 0 <= i < |s.workers| && 0 <= j < |s.workers| ::
              WHolds(s.workers[i]) && WHolds(s.workers[j]) ==> i == j
    ensures forall p, q | 0 <= p < |s.producers| && 0 <= q < |s.producers| ::
              PHolds(s.producers[p]) && PHolds(s.producers[q]) ==> p == q
    ensures forall i, p :: 0 <= i < |s.workers| && 0 <= p < |s.producers| ==>
              !(WHolds(s.workers[i]) && PHolds(s.producers[p]))
  {
    hide Reachable, WakeInv, FifoInv, TakenInv, RanInv, SubmitInv, WHolds, PHolds;
    ReachableInv(s);
  }

  /**
    No lost wakeup, for any number of workers and any schedule: while some worker is blocked, the
    queued requests number at most the workers about to look at the queue, plus one if a producer
    has queued a request and not signalled yet.
   */
  lemma NoLostWakeup(s: State)
    requires Reachable(s) && AnyBlocked(s.workers)
    ensures |s.queue| <= Ready(s) + Signals(s)
    ensures Signals(s) <= 1
  {
    hide Reachable, FifoInv, TakenInv, RanInv, SubmitInv, PHolds, Sum;
    ReachableInv(s);
    OneSignal(s.producers);
  }

  lemma {:induction false} OneSignal(ps: seq<Producer>)
    requires forall p, q :: 0 <= p < |ps| && 0 <= q < |ps| && PHolds(ps[p]) && PHolds(ps[q]) ==> p == q
    ensures Sum(SignalOne, ps) <= 1
  {
    if ps != [] {
      var n := |ps| - 1;
      if ps[n].PSignal? {
        forall p | 0 <= p < n
          ensures SignalOne(ps[..n][p]) == 0
        {
          assert PHolds(ps[n]);
        }
        SumZero(SignalOne, ps[..n]);
      } else {
        OneSignal(ps[..n]);
      }
    }
  }

  // ---------- what the invariants say about one request ----------

  lemma {:induction false} NumberedOnce(rs: seq<Req>, k: nat)
    requires k < |rs| && forall j :: 0 <= j < |rs| ==> rs[j].id == j
    ensures multiset(rs)[rs[k]] == 1
    decreases |rs|
  {
    var n := |rs| - 1;
    assert rs == rs[..n] + [rs[n]];
    if k < n {
      NumberedOnce(rs[..n], k);
    } else {
      assert forall j :: 0 <= j < n ==> rs[..n][j] != rs[k];
      assert rs[k] !in multiset(rs[..n]);
    }
  }

  /** Requests taken, counted by worker. */
  lemma {:induction false} TakenByOne(log: seq<(nat, Req)>, r: Req, i: nat, j: nat)
    requires i != j
    ensures multiset(log)[(i, r)] + multiset(log)[(j, r)] <= multiset(Requests(log))[r]
    decreases |log|
  {
    if log != [] {
      var n := |log| - 1;
      assert log == log[..n] + [log[n]];
      assert Requests(log) == Requests(log[..n]) + [log[n].1];
      TakenByOne(log[..n], r, i, j);
    }
  }

  lemma {:induction false} TakenBySome(log: seq<(nat, Req)>, r: Req) returns (i: nat)
    requires multiset(Requests(log))[r] > 0
    ensures multiset(log)[(i, r)] > 0
    decreases |log|
  {
    var n := |log| - 1;
    assert log == log[..n] + [log[n]];
    assert Requests(log) == Requests(log[..n]) + [log[n].1];
    if log[n].1 == r {
      i := log[n].0;
    } else {
      i := TakenBySome(log[..n], r);
    }
  }

  /**
    Every submitted request is in exactly one place: still offered, dropped, queued, or taken; and
    a taken one is either in the hands of the worker that took it or was freed by that same worker.
    A request never taken, a dropped one in particular, is never freed.
   */
  lemma OnePlace(s: State, k: nat)
    requires Reachable(s) && k < |s.submitted|
    ensures var r := s.submitted[k];
            && Offered(s)[r] + multiset(s.dropped)[r] + multiset(s.queue)[r] + multiset(Requests(s.taken))[r] == 1
            && (multiset(Requests(s.taken))[r] == 1 ==>
                  exists i: nat ::
                    && multiset(s.freed)[(i, r)] + Held(s)[(i, r)] == 1
                    && forall j: nat :: j != i ==> multiset(s.freed)[(j, r)] == Held(s)[(j, r)] == 0)
            && (multiset(Requests(s.taken))[r] == 0 ==>
                  forall j: nat :: multiset(s.freed)[(j, r)] == Held(s)[(j, r)] == 0)
  {
    hide Reachable, LockInv, WakeInv, RanInv, Held, Offered, Requests;
    ReachableInv(s);
    var r := s.submitted[k];
    NumberedOnce(s.submitted, k);
    assert multiset(s.accepted) == multiset(Requests(s.taken)) + multiset(s.queue);
    if multiset(Requests(s.taken))[r] == 1 {
      TakenPlace(s, r);
    } else {
      NotTaken(s, r);
    }
  }

  lemma TakenPlace(s: State, r: Req)
    requires TakenInv(s) && multiset(Requests(s.taken))[r] == 1
    ensures exists i: nat ::
              && multiset(s.freed)[(i, r)] + Held(s)[(i, r)] == 1
              && forall j: nat :: j != i ==> multiset(s.freed)[(j, r)] == Held(s)[(j, r)] == 0
  {
    hide Held, Requests;
    var i := TakenBySome(s.taken, r);
    forall j: nat | j != i
      ensures multiset(s.freed)[(j, r)] == Held(s)[(j, r)] == 0
    {
      TakenByOne(s.taken, r, i, j);
      assert multiset(s.taken)[(j, r)] == multiset(s.freed)[(j, r)] + Held(s)[(j, r)];
    }
    TakenByOne(s.taken, r, i, i + 1);
    assert multiset(s.taken)[(i, r)] == multiset(s.freed)[(i, r)] + Held(s)[(i, r)];
  }

  lemma NotTaken(s: State, r: Req)
    requires TakenInv(s) && multiset(Requests(s.taken))[r] == 0
    ensures forall j: nat :: multiset(s.freed)[(j, r)] == Held(s)[(j, r)] == 0
  {
    hide Held, Requests;
    forall j: nat
      ensures multiset(s.freed)[(j, r)] == Held(s)[(j, r)] == 0
    {
      TakenByOne(s.taken, r, j, j + 1);
      assert multiset(s.taken)[(j, r)] == multiset(s.freed)[(j, r)] + Held(s)[(j, r)];
    }
  }

  lemma {:induction false} CallableCount(log: seq<(nat, Req)>, e: (nat, Req))
    ensures CallableOnly(log)[e] == if e.1.callable then multiset(log)[e] else 0
    decreases |log|
  {
    if log != [] {
      var n := |log| - 1;
      assert log == log[..n] + [log[n]];
      CallableCount(log[..n], e);
    }
  }

  lemma RanIsHeld(i: nat, w: Worker, e: (nat, Req))
    ensures RanOne(i, w)[e] <= HeldOne(i, w)[e]
    ensures !e.1.callable ==> RanOne(i, w)[e] == 0
  {
  }

  lemma {:induction false} RanAreHeld(ws: seq<Worker>, e: (nat, Req))
    ensures Bag(RanOne, ws)[e] <= Bag(HeldOne, ws)[e]
    ensures !e.1.callable ==> Bag(RanOne, ws)[e] == 0
    decreases |ws|
  {
    if ws != [] {
      var n := |ws| - 1;
      RanAreHeld(ws[..n], e);
      RanIsHeld(n, ws[n], e);
      hide RanOne, HeldOne;
    }
  }

  /** A callback runs once for a freed request that has one, never for one that has none. */
  lemma ExecutedOnce(s: State, i: nat, r: Req)
    requires Reachable(s)
    ensures !r.callable ==> multiset(s.executed)[(i, r)] == 0
    ensures r.callable ==>
              multiset(s.freed)[(i, r)] <= multiset(s.executed)[(i, r)] <= multiset(s.freed)[(i, r)] + Held(s)[(i, r)]
  {
    ReachableInv(s);
    CallableCount(s.freed, (i, r));
    RanAreHeld(s.workers, (i, r));
  }

  /** Whether each request handed to enqueue_req has a callback, in the order of the calls. */
  function Calls(steps: seq<Step>): seq<bool> {
    if steps == [] then []
    else (if steps[0].Submit? then [steps[0].callable] else []) + Calls(steps[1..])
  }

  function Numbered(from: nat, callables: seq<bool>): (rs: seq<Req>)
    ensures |rs| == |callables|
  {
    seq(|callables|, k requires 0 <= k < |callables| => Req(from + k, callables[k]))
  }

  /** What is submitted is what was passed, in order and nothing else. */
  lemma {:induction false} SubmittedIsPassed(s: State, steps: seq<Step>)
    requires Legal(s, steps)
    ensures Exec(s, steps).submitted == s.submitted + Numbered(|s.submitted|, Calls(steps))
    decreases |steps|
  {
    if steps == [] {
      assert Numbered(|s.submitted|, []) == [] && s.submitted + [] == s.submitted;
    } else {
      hide Enabled, Apply, Numbered;
      var t := Apply(s, steps[0]);
      OneSubmitted(s, steps[0]);
      SubmittedIsPassed(t, steps[1..]);
      if steps[0].Submit? {
        NumberedHead(|s.submitted|, steps[0].callable, Calls(steps[1..]));
        var r, rest := Req(|s.submitted|, steps[0].callable), Numbered(|t.submitted|, Calls(steps[1..]));
        assert (s.submitted + [r]) + rest == s.submitted + ([r] + rest);
      } else {
        assert [] + Calls(steps[1..]) == Calls(steps[1..]);
      }
    }
  }

  lemma OneSubmitted(s: State, step: Step)
    requires Enabled(s, step)
    ensures Apply(s, step).submitted ==
            if step.Submit? then s.submitted + [Req(|s.submitted|, step.callable)] else s.submitted
  {
  }

  lemma NumberedHead(from: nat, callable: bool, rest: seq<bool>)
    ensures Numbered(from, [callable] + rest) == [Req(from, callable)] + Numbered(from + 1, rest)
  {
  }

  /** Accepted requests leave the queue in the order they were accepted. */
  lemma TakenInOrder(s: State)
    requires Reachable(s)
    ensures Requests(s.taken) <= s.accepted && s.accepted == Requests(s.taken) + s.queue
    ensures |s.queue| <= s.cap
  {
    ReachableInv(s);
  }

  // ---------- draining ----------

  /** Everything but new submissions and spurious wakeups. */
  predicate Quiet(step: Step) {
    !step.Submit? && !step.Spurious?
  }

  function WorkerWork(w: Worker): nat {
    match w
    case Blocked => 0
    case AtWait => 1
    case AtDequeue => 2
    case AtLock => 3
    case Woken => 5
    case AtUnlock(None) => 4
    case AtUnlock(Some(_)) => 6
    case AtCall(_) => 5
    case AtFree(_) => 4
  }

  function ProducerWork(p: Producer): nat {
    match p
    case Idle => 0
    case PUnlock => 1
    case PSignal => 7
    case PEnqueue(_) => 13
    case PLock(_) => 14
  }

  /** Steps still owed. */
  function Work(s: State): nat {
    Sum(WorkerWork, s.workers) + Sum(ProducerWork, s.producers) + 5 * |s.queue|
  }

  lemma QuietWorks(s: State, step: Step)
    requires Enabled(s, step) && Quiet(step)
    ensures Work(Apply(s, step)) < Work(s)
  {
    hide Sum;
    var s' := Apply(s, step);
    if ByProducer(step) || step.Signal? {
      SumUpdate(ProducerWork, s.producers, step.p, s'.producers[step.p]);
    }
    if !ByProducer(step) && step.i < |s.workers| {
      SumUpdate(WorkerWork, s.workers, step.i, s'.workers[step.i]);
      assert s'.workers == s.workers[step.i := s'.workers[step.i]];
    }
  }

  /** Left alone, the pool takes only as many steps as there is work. */
  lemma {:induction false} QuietRunsEnd(s: State, steps: seq<Step>)
    requires Legal(s, steps) && forall k :: 0 <= k < |steps| ==> Quiet(steps[k])
    ensures |steps| + Work(Exec(s, steps)) <= Work(s)
    decreases |steps|
  {
    hide Enabled, Apply, Work;
    if steps != [] {
      QuietWorks(s, steps[0]);
      QuietRunsEnd(Apply(s, steps[0]), steps[1..]);
    }
  }

  ghost predicate Settled(s: State) {
    forall step :: Enabled(s, step) ==> !Quiet(step)
  }

  lemma SettledUnlocked(s: State)
    requires LockInv(s) && Settled(s)
    ensures s.lock.None?
  {
    if s.lock.Some? {
      var step;
      match s.lock.value {
        case W(i) =>
          assert WHolds(s.workers[i]);
          step := if s.workers[i].AtDequeue? then TryDequeue(i)
                  else if s.workers[i].AtWait? then Wait(i) else Unlock(i);
        case P(p) =>
          assert PHolds(s.producers[p]);
          var i: nat := 0;
          if AnyBlocked(s.workers) {
            i :| 0 <= i < |s.workers| && s.workers[i].Blocked?;
          }
          step := if s.producers[p].PEnqueue? then TryEnqueue(p)
                  else if s.producers[p].PSignal? then Signal(p, i) else ProducerUnlock(p);
      }
      assert Enabled(s, step);
    }
  }

  /** Nobody holds the mutex when no quiet step is left, so every thread is blocked or idle. */
  lemma SettledThreads(s: State)
    requires LockInv(s) && Settled(s)
    ensures forall i :: 0 <= i < |s.workers| ==> s.workers[i].Blocked?
    ensures forall p :: 0 <= p < |s.producers| ==> s.producers[p].Idle?
  {
    SettledUnlocked(s);
    forall i | 0 <= i < |s.workers|
      ensures s.workers[i].Blocked?
    {
      assert !Enabled(s, Lock(i)) && !Enabled(s, Relock(i)) && !Enabled(s, Call(i)) && !Enabled(s, Free(i));
    }
    forall p | 0 <= p < |s.producers|
      ensures s.producers[p].Idle?
    {
      assert !Enabled(s, ProducerLock(p));
    }
  }

  lemma SettledQueue(s: State)
    requires LockInv(s) && WakeInv(s) && Settled(s) && 0 < |s.workers|
    ensures s.queue == []
  {
    SettledThreads(s);
    hide LockInv, Settled, Sum;
    SumZero(ReadyOne, s.workers);
    SumZero(SignalOne, s.producers);
    assert s.workers[0].Blocked?;
  }

  lemma SettledHands(s: State)
    requires LockInv(s) && Settled(s)
    ensures Held(s) == multiset{} && Bag(RanOne, s.workers) == multiset{} && Offered(s) == multiset{}
  {
    SettledThreads(s);
    hide LockInv, Settled, Bag;
    BagEmpty(HeldOne, s.workers);
    BagEmpty(RanOne, s.workers);
    BagEmpty(OfferedOne, s.producers);
  }

  /**
    No deadlock and no forgotten request: with at least one worker, once nothing but a submission
    or a spurious wakeup can happen, the queue is empty and every accepted request has been freed.
   */
  lemma SettledMeansDone(s: State)
    requires Reachable(s) && Settled(s) && 0 < |s.workers|
    ensures s.queue == []
    ensures multiset(s.freed) == multiset(s.taken) && Requests(s.taken) == s.accepted
    ensures multiset(s.executed) == CallableOnly(s.freed)
    ensures multiset(s.submitted) == multiset(s.accepted) + multiset(s.dropped)
  {
    hide LockInv, WakeInv, Settled, Bag, Held, Offered, Reachable, Requests;
    ReachableInv(s);
    SettledQueue(s);
    SettledHands(s);
    assert Requests(s.taken) + [] == Requests(s.taken);
  }
}
