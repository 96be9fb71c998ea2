/**
  When can a call of send_data_to_rtos_and_wait_rcv still return success?  A call inside the lock
  gets through on every schedule of the exchange; a call that failed to map core memory keeps the
  lock and stops all others.
 */
module UserProgress {
  import opened Tally
  import opened UserMsg

  // ---------- a failed call keeps the lock for ever ----------

  lemma StuckStep(s: State, step: Step, u: nat)
    requires Inv(s) && Enabled(s, step) && u < |s.users| && s.users[u].pc.Failed?
    ensures var t := Apply(s, step);
            && |t.users| == |s.users| && t.users[u].pc.Failed?
            && forall v :: 0 <= v < |s.users| ==> (t.users[v].pc.Done? <==> s.users[v].pc.Done?)
  {
    hide LogInv, MemInv, CallsInv, TokenInv, Unanswered;
    assert Critical(s.users[u].pc);
    if step.UserStep? {
      OthersStay(s, step.u, step.mapped);
      assert step.u != u ==> !Critical(s.users[step.u].pc);
      if step.u != u {
        OutsideFrame(s, step.u, step.mapped);
      }
      hide ApplyUser;
    } else {
      PipeConserves(s, step);
      hide Apply;
    }
  }

  /** Once a call has failed to map core memory, no call returns success any more. */
  lemma {:induction false} FailureWedges(s: State, steps: seq<Step>, u: nat)
    requires Inv(s) && Legal(s, steps) && u < |s.users| && s.users[u].pc.Failed?
    ensures var t := Exec(s, steps);
            && |t.users| == |s.users|
            && t.lock
            && forall v :: 0 <= v < |s.users| ==> (t.users[v].pc.Done? <==> s.users[v].pc.Done?)
    decreases |steps|
  {
    if steps == [] {
      assert Critical(s.users[u].pc);
    } else {
      hide Enabled, Apply, Inv;
      StuckStep(s, steps[0], u);
      StepKeeps(s, steps[0]);
      FailureWedges(Apply(s, steps[0]), steps[1..], u);
    }
  }

  /** The arguments pass the checks made before the lock is taken. */
  predicate Accepted(s: State, me: User) {
    |me.data| <= COPY_SIZE && s.rec.instance == me.instance
  }

  /** Three steps of any acceptable call lead there: checks, lock, mapping that fails. */
  lemma FailureReachable(s: State, u: nat)
    requires IsInit(s) && u < |s.users| && Accepted(s, s.users[u])
    ensures var steps := [UserStep(u, true), UserStep(u, true), UserStep(u, false)];
            && Legal(s, steps)
            && |Exec(s, steps).users| == |s.users| && Exec(s, steps).users[u].pc.Failed?
  {
    var s1 := Apply(s, UserStep(u, true));
    var s2 := Apply(s1, UserStep(u, true));
    assert s2.users[u].pc == MapCore && Enabled(s2, UserStep(u, false));
    var s3 := Apply(s2, UserStep(u, false));
    assert s3.users[u].pc == Failed;
    hide Apply, Enabled;
    var steps := [UserStep(u, true), UserStep(u, true), UserStep(u, false)];
    assert steps[1..][1..][1..] == [];
    assert Legal(s2, steps[1..][1..]) && Exec(s2, steps[1..][1..]) == s3;
    assert Legal(s1, steps[1..]) && Exec(s1, steps[1..]) == s3;
  }

  // ---------- a call that has the lock gets through ----------

  /** A step of the exchange itself: of the pipe, or of the call that holds the lock with its mapping made. */
  predicate Exchange(s: State, step: Step) {
    !step.UserStep? || (step.u < |s.users| && Critical(s.users[step.u].pc) && step.mapped)
  }

  function CallWork(me: User): nat {
    match me.pc
    case MapCore => 20
    case CopyRequest => 19
    case SetPhy => 18
    case SetLen => 17
    case Post => 16
    case Wait => 4
    case CopyReply => 3
    case GetLen(_) => 2
    case Release(_, _) => 1
    case _ => 0
  }

  function TxWork(tx: Tx): nat {
    match tx
    case TWait => 0
    case TPhy => 9
    case TLen(_) => 8
    case TSend(_, _) => 7
  }

  function PipeWork(p: Pipe): nat {
    Bit(p.greeting) + 10 * p.toMicad + TxWork(p.tx) + 6 * |p.out|
    + (match p.rtos case RIdle => 0 case RWork(_, _) => 5 case RSend(_) => 4)
    + 3 * |p.back| + 2 * Bit(p.posting) + p.toUser
  }

  function Work(s: State): nat {
    Sum(CallWork, s.users) + PipeWork(s.pipe)
  }

  lemma UserWorks(s: State, u: nat, mapped: bool)
    requires u < |s.users| && UserEnabled(s, s.users[u]) && Critical(s.users[u].pc)
    ensures var s' := ApplyUser(s, u, mapped);
            CallWork(s'.users[u]) + PipeWork(s'.pipe) < CallWork(s.users[u]) + PipeWork(s.pipe)
            && s'.users == s.users[u := s'.users[u]]
  {
  }

  lemma PipeWorks(s: State, step: Step)
    requires Enabled(s, step) && !step.UserStep?
    ensures PipeWork(Apply(s, step).pipe) < PipeWork(s.pipe) && Apply(s, step).users == s.users
  {
  }

  /** Every step of the exchange brings it closer to its end. */
  lemma ExchangeWorks(s: State, step: Step)
    requires Enabled(s, step) && Exchange(s, step)
    ensures Work(Apply(s, step)) < Work(s)
  {
    if step.UserStep? {
      UserWorks(s, step.u, step.mapped);
      SumUpdate(CallWork, s.users, step.u, ApplyUser(s, step.u, step.mapped).users[step.u]);
      hide ApplyUser, PipeWork, CallWork, Sum;
    } else {
      PipeWorks(s, step);
      hide Apply, PipeWork, CallWork, Sum;
    }
  }

  /** Inside the lock and not failed. */
  predicate Holding(s: State, u: nat) {
    u < |s.users| && Critical(s.users[u].pc) && !s.users[u].pc.Failed?
  }

  lemma TokenMoves(s: State, me: User)
    requires MemInv(s) && me.pc.Wait? && me.phy in s.mem && |me.data| <= COPY_SIZE
    requires Tokens(s.pipe) == 1 && TokenFacts(s, me) && s.pipe.toUser == 0
    ensures exists step: Step :: !step.UserStep? && Enabled(s, step)
  {
    var p := s.pipe;
    var step :=
      match p.tx
      case TPhy => TxPhy
      case TLen(_) => TxLen
      case TSend(_, _) => TxSend
      case TWait =>
        if p.toMicad > 0 then TxTake
        else if p.rtos.RWork? then RtosReply([])
        else if p.rtos.RSend? then RtosSend
        else if p.out != [] then (if p.greeting then RtosGreeting else RtosTake)
        else if p.posting then RxPost else RxSet;
    assert Enabled(s, step);
  }

  /** The exchange of a call that holds the lock is never stuck, without any mapping failing. */
  lemma ExchangeMoves(s: State, u: nat)
    requires Inv(s) && Holding(s, u)
    ensures exists step :: Exchange(s, step) && Enabled(s, step)
  {
    hide LogInv, Unanswered, Returned;
    var me := s.users[u];
    assert CallFacts(s, u);
    if me.pc.Wait? && s.pipe.toUser == 0 {
      TokenMoves(s, me);
      var step: Step :| !step.UserStep? && Enabled(s, step);
      assert Exchange(s, step);
    } else {
      assert Enabled(s, UserStep(u, true));
      assert Exchange(s, UserStep(u, true));
    }
  }

  /** The exchange moves the holder and no other call; the holder goes on holding until it is done. */
  lemma HolderStep(s: State, step: Step, u: nat)
    requires Inv(s) && Holding(s, u) && Enabled(s, step) && Exchange(s, step)
    ensures var t := Apply(s, step);
            t.users == s.users[u := t.users[u]] && (Holding(t, u) || t.users[u].pc.Done?)
  {
    hide MemInv, LogInv, CallsInv, TokenInv;
    if step.UserStep? {
      assert step.u == u;
      HolderMoves(s, u);
    } else {
      PipeConserves(s, step);
      hide Apply, Enabled;
    }
  }

  lemma HolderMoves(s: State, u: nat)
    requires Holding(s, u) && UserEnabled(s, s.users[u])
    ensures var t := ApplyUser(s, u, true);
            t.users == s.users[u := t.users[u]] && (Holding(t, u) || t.users[u].pc.Done?)
  {
  }

  /** Steps of the exchange only, each in the state it is made in. */
  predicate ExchangeRun(s: State, steps: seq<Step>)
    requires Legal(s, steps)
    decreases |steps|
  {
    steps == [] || (Exchange(s, steps[0]) && ExchangeRun(Apply(s, steps[0]), steps[1..]))
  }

  /**
    Whatever the schedule of the exchange: it takes at most as many steps as there is work, and
    where it has no further step to make before the holder is done, the holder is done.
   */
  lemma {:induction false} ExchangeFinishes(s: State, steps: seq<Step>, u: nat)
    requires Inv(s) && Holding(s, u) && Legal(s, steps) && ExchangeRun(s, steps)
    ensures |steps| + Work(Exec(s, steps)) <= Work(s)
    ensures var t := Exec(s, steps);
            || (Holding(t, u) && exists step :: Exchange(t, step) && Enabled(t, step))
            || DoneOnTheWay(s, steps, u)
    decreases |steps|
  {
    hide Enabled, Apply, Inv, Work, Exchange, Holding;
    if steps == [] {
      ExchangeMoves(s, u);
    } else {
      ExchangeWorks(s, steps[0]);
      StepKeeps(s, steps[0]);
      HolderStep(s, steps[0], u);
      var t := Apply(s, steps[0]);
      HoldingIndex(s, u);
      if Holding(t, u) {
        ExchangeFinishes(t, steps[1..], u);
      } else {
        assert DoneOnTheWay(t, steps[1..], u);
        ExchangeBounded(t, steps[1..]);
      }
    }
  }

  lemma HoldingIndex(s: State, u: nat)
    requires Holding(s, u)
    ensures u < |s.users|
  {
  }

  /** The call has returned success in some state of the run. */
  predicate DoneOnTheWay(s: State, steps: seq<Step>, u: nat)
    requires Legal(s, steps)
    decreases |steps|
  {
    || (u < |s.users| && s.users[u].pc.Done?)
    || (steps != [] && DoneOnTheWay(Apply(s, steps[0]), steps[1..], u))
  }

  lemma {:induction false} ExchangeBounded(s: State, steps: seq<Step>)
    requires Legal(s, steps) && ExchangeRun(s, steps)
    ensures |steps| + Work(Exec(s, steps)) <= Work(s)
    decreases |steps|
  {
    hide Enabled, Apply, Work, Exchange;
    if steps != [] {
      ExchangeWorks(s, steps[0]);
      ExchangeBounded(Apply(s, steps[0]), steps[1..]);
    }
  }

  // ---------- which calls can still succeed ----------

  ghost predicate Reaches(s: State, t: State) {
    exists steps :: Legal(s, steps) && Exec(s, steps) == t
  }

  lemma {:induction false} RunConcat(s: State, a: seq<Step>, b: seq<Step>)
    requires Legal(s, a) && Legal(Exec(s, a), b)
    ensures Legal(s, a + b) && Exec(s, a + b) == Exec(Exec(s, a), b)
    decreases |a|
  {
    hide Enabled, Apply;
    if a == [] {
      assert a + b == b;
    } else {
      assert (a + b)[1..] == a[1..] + b;
      RunConcat(Apply(s, a[0]), a[1..], b);
    }
  }

  lemma StepThen(s: State, step: Step, t: State)
    requires Enabled(s, step) && Reaches(Apply(s, step), t)
    ensures Reaches(s, t)
  {
    hide Enabled, Apply;
    var rest :| Legal(Apply(s, step), rest) && Exec(Apply(s, step), rest) == t;
    var steps := [step] + rest;
    assert steps[1..] == rest;
    assert Legal(s, steps) && Exec(s, steps) == t;
  }

  lemma ReachesTrans(s: State, t: State, w: State)
    requires Reaches(s, t) && Reaches(t, w)
    ensures Reaches(s, w)
  {
    var a :| Legal(s, a) && Exec(s, a) == t;
    var b :| Legal(t, b) && Exec(t, b) == w;
    RunConcat(s, a, b);
  }

  /** The holder can be driven to success with every other call where it was. */
  lemma {:induction false} Completes(s: State, u: nat) returns (t: State)
    requires Inv(s) && Holding(s, u)
    ensures Reaches(s, t) && Inv(t) && u < |s.users| == |t.users|
    ensures t.users == s.users[u := t.users[u]] && t.users[u].pc.Done?
    decreases Work(s)
  {
    hide Enabled, Apply, Inv, Work, Exchange, Holding, Reaches, Legal, Exec;
    ExchangeMoves(s, u);
    HoldingIndex(s, u);
    var step :| Exchange(s, step) && Enabled(s, step);
    ExchangeWorks(s, step);
    StepKeeps(s, step);
    HolderStep(s, step, u);
    var next := Apply(s, step);
    if next.users[u].pc.Done? {
      t := next;
      NoStep(t);
    } else {
      t := Completes(next, u);
    }
    StepThen(s, step, t);
  }

  lemma NoStep(s: State)
    ensures Reaches(s, s)
  {
    assert Legal(s, []) && Exec(s, []) == s;
  }

  ghost predicate NoneFailed(s: State) {
    forall v :: 0 <= v < |s.users| ==> !s.users[v].pc.Failed?
  }

  /** Some run makes the call return success. */
  ghost predicate CanFinish(s: State, u: nat) {
    exists t :: Reaches(s, t) && u < |t.users| && t.users[u].pc.Done?
  }

  /** The lock can be made free with `u` still spinning. */
  lemma LockFreed(s: State, u: nat) returns (t: State)
    requires Inv(s) && NoneFailed(s) && u < |s.users| && s.users[u].pc.Spin?
    ensures Reaches(s, t) && Inv(t) && !t.lock && u < |t.users| && t.users[u].pc.Spin?
  {
    hide Reaches, MemInv, LogInv, CallsInv, TokenInv;
    if s.lock {
      var v :| 0 <= v < |s.users| && Critical(s.users[v].pc);
      t := Completes(s, v);
      assert forall w :: 0 <= w < |s.users| && w != v ==> !Critical(s.users[w].pc);
      assert forall w :: 0 <= w < |t.users| ==> !Critical(t.users[w].pc);
    } else {
      t := s;
      NoStep(s);
    }
  }

  lemma SpinFinishes(s: State, u: nat)
    requires Inv(s) && NoneFailed(s) && u < |s.users| && s.users[u].pc.Spin?
    ensures CanFinish(s, u)
  {
    hide Reaches, Inv;
    var t := LockFreed(s, u);
    assert Enabled(t, UserStep(u, true));
    var t1 := Apply(t, UserStep(u, true));
    assert Holding(t1, u);
    StepKeeps(t, UserStep(u, true));
    hide Apply, Enabled;
    var t2 := Completes(t1, u);
    StepThen(t, UserStep(u, true), t2);
    ReachesTrans(s, t, t2);
  }

  lemma StartFinishes(s: State, u: nat)
    requires Inv(s) && NoneFailed(s) && u < |s.users| && s.users[u].pc.Start? && Accepted(s, s.users[u])
    ensures CanFinish(s, u)
  {
    hide Reaches, Inv;
    var step := UserStep(u, true);
    var t := Apply(s, step);
    assert Enabled(s, step) && t.users[u].pc.Spin? && NoneFailed(t);
    StepKeeps(s, step);
    hide Apply, Enabled;
    SpinFinishes(t, u);
    var w :| Reaches(t, w) && u < |w.users| && w.users[u].pc.Done?;
    StepThen(s, step, w);
  }

  /** Turned away by the checks, or about to be. */
  predicate Refused(s: State, me: User) {
    me.pc.Rejected? || (me.pc.Start? && !Accepted(s, me))
  }

  lemma RefusedStep(s: State, step: Step, u: nat)
    requires u < |s.users| && Refused(s, s.users[u]) && Enabled(s, step)
    ensures u < |Apply(s, step).users| && Refused(Apply(s, step), Apply(s, step).users[u])
  {
  }

  lemma {:induction false} RefusedStays(s: State, steps: seq<Step>, u: nat)
    requires u < |s.users| && Refused(s, s.users[u]) && Legal(s, steps)
    ensures u < |Exec(s, steps).users| && Refused(Exec(s, steps), Exec(s, steps).users[u])
    decreases |steps|
  {
    hide Enabled, Apply, Refused;
    if steps != [] {
      RefusedStep(s, steps[0], u);
      RefusedStays(Apply(s, steps[0]), steps[1..], u);
    }
  }

  /**
    The exact condition, in every reachable state, for a call that has not returned success: it can
    still do so if and only if its arguments are accepted and no call has failed to map core memory.
   */
  lemma FinishExactly(s: State, u: nat)
    requires Reachable(s) && u < |s.users| && !s.users[u].pc.Done?
    ensures CanFinish(s, u) <==> NoneFailed(s) && !Refused(s, s.users[u])
  {
    hide Reachable, Inv, Legal, Exec;
    ReachableInv(s);
    if Refused(s, s.users[u]) {
      forall t | Reaches(s, t)
        ensures u < |t.users| && !t.users[u].pc.Done?
      {
        var steps :| Legal(s, steps) && Exec(s, steps) == t;
        RefusedStays(s, steps, u);
      }
    } else if !NoneFailed(s) {
      var v :| 0 <= v < |s.users| && s.users[v].pc.Failed?;
      forall t | Reaches(s, t)
        ensures u < |t.users| && !t.users[u].pc.Done?
      {
        var steps :| Legal(s, steps) && Exec(s, steps) == t;
        FailureWedges(s, steps, v);
      }
    } else if s.users[u].pc.Start? {
      StartFinishes(s, u);
    } else if s.users[u].pc.Spin? {
      SpinFinishes(s, u);
    } else {
      hide Reaches;
      var t := Completes(s, u);
    }
  }
}
