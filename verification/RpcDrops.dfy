/** Requests refused by a full queue: that they occur, and that they are the ones never freed. */
module RpcDrops {
  import opened Tally
  import opened RpcWorkers

  // ---------- a full queue can be met ----------

  ghost predicate Reaches(s: State, t: State) {
    exists steps :: Legal(s, steps) && Exec(s, steps) == t
  }

  lemma {:induction false} RunConcat(s: State, a: seq<Step>, b: seq<Step>)
    requires Legal(s, a) && Legal(Exec(s, a), b)
    ensures Legal(s, a + b) && Exec(s, a + b) == Exec(Exec(s, a), b)
    decreases |a|
  {
    hide Enabled, Apply;
    if a == [] {
      assert a + b == b;
    } else {
      assert (a + b)[1..] == a[1..] + b;
      RunConcat(Apply(s, a[0]), a[1..], b);
    }
  }

  lemma ThenStep(s: State, t: State, step: Step)
    requires Reaches(s, t) && Enabled(t, step)
    ensures Reaches(s, Apply(t, step))
  {
    hide Enabled, Apply;
    var a :| Legal(s, a) && Exec(s, a) == t;
    var w := Apply(t, step);
    assert [step][1..] == [];
    assert Legal(w, []) && Exec(w, []) == w;
    assert Legal(t, [step]) && Exec(t, [step]) == w;
    RunConcat(s, a, [step]);
  }

  lemma NoStep(s: State)
    ensures Reaches(s, s)
  {
    assert Legal(s, []) && Exec(s, []) == s;
  }

  /** The queue holds `n` requests, no worker has moved and producer 0 is idle. */
  ghost predicate Filled(s: State, cap: nat, n: nat) {
    && s.cap == cap && |s.queue| == n && s.lock.None?
    && (forall i :: 0 <= i < |s.workers| ==> s.workers[i].AtLock?)
    && 0 < |s.producers| && s.producers[0].Idle?
  }

  /** One request submitted and offered to the queue. */
  lemma Offer(s0: State, s: State, cap: nat, n: nat) returns (t: State)
    requires Filled(s, cap, n) && Reaches(s0, s)
    ensures Reaches(s0, t) && Enabled(t, TryEnqueue(0)) && |t.queue| == n && t.cap == cap
    ensures t.workers == s.workers && 0 < |t.producers|
  {
    hide Reaches;
    var t1 := Apply(s, Submit(0, true));
    ThenStep(s0, s, Submit(0, true));
    t := Apply(t1, ProducerLock(0));
    ThenStep(s0, t1, ProducerLock(0));
  }

  /** While there is room, one more request can be queued. */
  lemma FillOne(s0: State, s: State, cap: nat, n: nat) returns (t: State)
    requires Filled(s, cap, n) && n < cap && Reaches(s0, s)
    ensures Reaches(s0, t) && Filled(t, cap, n + 1)
  {
    hide Reaches;
    var t2 := Offer(s0, s, cap, n);
    var t3 := Apply(t2, TryEnqueue(0));
    ThenStep(s0, t2, TryEnqueue(0));
    assert !AnyBlocked(t3.workers);
    var t4 := Apply(t3, Signal(0, 0));
    ThenStep(s0, t3, Signal(0, 0));
    t := Apply(t4, ProducerUnlock(0));
    ThenStep(s0, t4, ProducerUnlock(0));
  }

  lemma {:induction false} Fill(cap: nat, workers: nat, producers: nat, n: nat) returns (t: State)
    requires 0 < producers && n <= cap
    ensures Reaches(Init(cap, workers, producers), t) && Filled(t, cap, n)
    decreases n
  {
    hide Reaches;
    if n == 0 {
      t := Init(cap, workers, producers);
      NoStep(t);
    } else {
      var s := Fill(cap, workers, producers, n - 1);
      t := FillOne(Init(cap, workers, producers), s, cap, n - 1);
    }
  }

  /** For every capacity and any numbers of threads, some run drops a request. */
  lemma DropReachable(cap: nat, workers: nat, producers: nat) returns (t: State)
    requires 0 < producers
    ensures Reaches(Init(cap, workers, producers), t) && t.dropped != []
  {
    hide Reaches;
    var s := Fill(cap, workers, producers, cap);
    var u := Offer(Init(cap, workers, producers), s, cap, cap);
    t := Apply(u, TryEnqueue(0));
    ThenStep(Init(cap, workers, producers), u, TryEnqueue(0));
  }

  // ---------- exactly the dropped requests are never freed ----------

  /** Some request of the run is offered to a full queue. */
  predicate MetFull(s: State, steps: seq<Step>)
    requires Legal(s, steps)
    decreases |steps|
  {
    && steps != []
    && (|| (steps[0].TryEnqueue? && |s.queue| >= s.cap)
        || MetFull(Apply(s, steps[0]), steps[1..]))
  }

  lemma DropStep(s: State, step: Step)
    requires Enabled(s, step)
    ensures |Apply(s, step).dropped| == |s.dropped| + if step.TryEnqueue? && |s.queue| >= s.cap then 1 else 0
  {
  }

  lemma {:induction false} DroppedExactly(s: State, steps: seq<Step>)
    requires Legal(s, steps)
    ensures |s.dropped| <= |Exec(s, steps).dropped|
    ensures |s.dropped| < |Exec(s, steps).dropped| <==> MetFull(s, steps)
    decreases |steps|
  {
    hide Enabled, Apply;
    if steps != [] {
      DropStep(s, steps[0]);
      DroppedExactly(Apply(s, steps[0]), steps[1..]);
    }
  }

  function RequestOf(e: (nat, Req)): Req {
    e.1
  }

  lemma RequestsBag(a: seq<(nat, Req)>, b: seq<(nat, Req)>)
    requires multiset(a) == multiset(b)
    ensures multiset(Requests(a)) == multiset(Requests(b))
  {
    assert Requests(a) == Image(RequestOf, a) && Requests(b) == Image(RequestOf, b);
    ImageBag(RequestOf, a, b);
  }

  /**
    Where the pool has settled, every submitted request has been freed if and only if none was
    offered to a full queue; what is never freed is exactly what was dropped.
   */
  lemma FreedExactly(cap: nat, workers: nat, producers: nat, steps: seq<Step>)
    requires Legal(Init(cap, workers, producers), steps) && 0 < workers
    requires Settled(Exec(Init(cap, workers, producers), steps))
    ensures var s := Exec(Init(cap, workers, producers), steps);
            && multiset(s.submitted) == multiset(Requests(s.freed)) + multiset(s.dropped)
            && (multiset(s.submitted) == multiset(Requests(s.freed)) <==> !MetFull(Init(cap, workers, producers), steps))
  {
    hide Legal, Exec, MetFull, Settled, Requests;
    var s0 := Init(cap, workers, producers);
    var s := Exec(s0, steps);
    DroppedExactly(s0, steps);
    WorkersFixed(s0, steps);
    assert Reachable(s);
    SettledMeansDone(s);
    RequestsBag(s.freed, s.taken);
    assert |multiset(s.dropped)| == |s.dropped|;
  }

  lemma {:induction false} WorkersFixed(s: State, steps: seq<Step>)
    requires Legal(s, steps)
    ensures |Exec(s, steps).workers| == |s.workers|
    decreases |steps|
  {
    if steps != [] {
      WorkersFixed(Apply(s, steps[0]), steps[1..]);
    }
  }
}
