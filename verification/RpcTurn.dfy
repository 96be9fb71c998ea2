/** One turn of a worker through dequeue: from taking the mutex to giving it back for good. */
module RpcTurn {
  import opened Words
  import opened RpcWorkers

  /** How often worker `i` tries the queue in the run. */
  function Tries(i: nat, steps: seq<Step>): nat {
    if steps == [] then 0
    else (if steps[0] == TryDequeue(i) then 1 else 0) + Tries(i, steps[1..])
  }

  /** How often it waits. */
  function Waits(i: nat, steps: seq<Step>): nat {
    if steps == [] then 0
    else (if steps[0] == Wait(i) then 1 else 0) + Waits(i, steps[1..])
  }

  /** Where a worker in its turn is, by what it has still to do before `Unlock`. */
  predicate Ahead(w: Worker, tries: nat, waits: nat, req: Option<Req>) {
    match w
    case AtDequeue => tries == 1 && waits == if req.None? then 1 else 0
    case AtWait => tries == 0 && waits == 1 && req.None?
    case Blocked => tries == 0 && waits == 0 && req.None?
    case Woken => tries == 0 && waits == 0 && req.None?
    case AtUnlock(r) => tries == 0 && waits == 0 && r == req
    case _ => false
  }

  predicate InTurn(w: Worker) {
    w.AtDequeue? || w.AtWait? || w.Blocked? || w.Woken? || w.AtUnlock?
  }

  lemma TurnStep(s: State, step: Step, i: nat)
    requires i < |s.workers| && InTurn(s.workers[i]) && Enabled(s, step) && step != Unlock(i)
    ensures var w, w' := s.workers[i], Apply(s, step).workers[i];
            && |Apply(s, step).workers| == |s.workers| && InTurn(w')
            && forall tries: nat, waits: nat, req :: Ahead(w', tries, waits, req) ==>
                 Ahead(w, tries + (if step == TryDequeue(i) then 1 else 0), waits + (if step == Wait(i) then 1 else 0), req)
  {
  }

  lemma {:induction false} TurnRun(s: State, steps: seq<Step>, i: nat)
    requires i < |s.workers| && InTurn(s.workers[i]) && Legal(s, steps) && Unlock(i) !in steps
    requires |Exec(s, steps).workers| > i && Exec(s, steps).workers[i].AtUnlock?
    ensures Ahead(s.workers[i], Tries(i, steps), Waits(i, steps), Exec(s, steps).workers[i].req)
    decreases |steps|
  {
    hide Enabled, Apply;
    if steps != [] {
      TurnStep(s, steps[0], i);
      TurnRun(Apply(s, steps[0]), steps[1..], i);
    }
  }

  /**
    Whatever else runs meanwhile: between taking the mutex and giving it back a worker tries the
    queue exactly once and waits at most once, and it leaves without a request exactly when it waited.
   */
  lemma TriesOnce(s: State, mid: seq<Step>, i: nat)
    requires Enabled(s, Lock(i)) && Legal(Apply(s, Lock(i)), mid) && Unlock(i) !in mid
    requires Enabled(Exec(Apply(s, Lock(i)), mid), Unlock(i))
    ensures var t := Exec(Apply(s, Lock(i)), mid);
            && Tries(i, mid) == 1
            && Waits(i, mid) == (if t.workers[i].req.None? then 1 else 0)
            && Apply(t, Unlock(i)).workers[i] ==
               (if Waits(i, mid) == 1 then AtLock else AtCall(t.workers[i].req.value))
  {
    TurnRun(Apply(s, Lock(i)), mid, i);
  }
}
