/**
  Request and reply between user processes, micad and the RTOS.  Any number of processes contend
  for one spinlock; two semaphores, one shared record and one message channel each way carry the
  request and its reply.  Every schedule is allowed.
 */
module UserMsg {
  import opened Words

  /** OPENAMP_SHM_COPY_SIZE */
  const COPY_SIZE: nat := 0x10_0000

  /** Request area and reply area of one exchange region, found by its physical address. */
  datatype Area = Area(req: seq<byte>, rep: seq<byte>)

  /** Where a call of send_data_to_rtos_and_wait_rcv is. */
  datatype Pc =
    | Start
    | Spin
    | MapCore
    | CopyRequest
    | SetPhy
    | SetLen
    | Post
    | Wait
    | CopyReply
    | GetLen(rcv: seq<byte>)
    | Release(rcv: seq<byte>, len: nat)
    | Done(rcv: seq<byte>, len: nat)
    | Rejected
    | Failed                          // core memory could not be mapped; the lock is kept

  datatype User = User(pc: Pc, data: seq<byte>, phy: nat, instance: int)

  /** process_shared_data_t without its lock */
  datatype Record = Record(instance: int, phy: nat, len: nat, rcvLen: nat)

  datatype Tx = TWait | TPhy | TLen(phy: nat) | TSend(phy: nat, len: nat)

  datatype Rtos = RIdle | RWork(phy: nat, len: nat) | RSend(n: nat)

  datatype Msg = Msg(phy: nat, len: nat)

  /**
    From the first semaphore to the second: the tx task, the channel to the RTOS (the greeting
    first, if still there), the RTOS, the channel back, and the rx callback between storing the
    length and posting.
   */
  datatype Pipe = Pipe(
    toMicad: nat, tx: Tx, greeting: bool, out: seq<Msg>, rtos: Rtos, back: seq<nat>, posting: bool, toUser: nat)

  /** One answer of the RTOS: the message, the request bytes it found there, and its reply. */
  datatype Entry = Entry(phy: nat, data: seq<byte>, reply: seq<byte>)

  /** `posts` and `log` are what an observer has seen: who posted, and the answers, each in order. */
  datatype State = State(
    users: seq<User>, lock: bool, rec: Record, pipe: Pipe, mem: map<nat, Area>, posts: seq<nat>, log: seq<Entry>)

  datatype Step =
    | UserStep(u: nat, mapped: bool)  // `mapped` matters only while mapping core memory
    | TxTake | TxPhy | TxLen | TxSend
    | RtosGreeting | RtosTake | RtosReply(reply: seq<byte>) | RtosSend
    | RxSet | RxPost

  /** A fresh session: semaphores and lock at zero, the greeting already sent. */
  ghost predicate IsInit(s: State) {
    && !s.lock && s.rec.instance == 0 && s.posts == [] && s.log == []
    && s.pipe == Pipe(0, TWait, true, [], RIdle, [], false, 0)
    && (forall u :: 0 <= u < |s.users| ==> s.users[u].pc == Start && s.users[u].phy in s.mem)
    && (forall a :: a in s.mem ==> |s.mem[a].req| == |s.mem[a].rep| == COPY_SIZE)
  }

  predicate UserEnabled(s: State, me: User) {
    match me.pc
    case Spin => !s.lock
    case CopyRequest => me.phy in s.mem && |me.data| <= |s.mem[me.phy].req|
    case Wait => s.pipe.toUser > 0
    case CopyReply => me.phy in s.mem && s.rec.rcvLen <= |s.mem[me.phy].rep|
    case Done(_, _) => false
    case Rejected => false
    case Failed => false
    case _ => true
  }

  /** The statement after the current one. */
  function NextPc(s: State, me: User, mapped: bool): Pc
    requires UserEnabled(s, me)
  {
    match me.pc
    case Start => if |me.data| > COPY_SIZE || s.rec.instance != me.instance then Rejected else Spin
    case Spin => MapCore
    case MapCore => if mapped then CopyRequest else Failed
    case CopyRequest => SetPhy
    case SetPhy => SetLen
    case SetLen => Post
    case Post => Wait
    case Wait => CopyReply
    case CopyReply => GetLen(s.mem[me.phy].rep[..s.rec.rcvLen])
    case GetLen(rcv) => Release(rcv, s.rec.rcvLen)
    case Release(rcv, len) => Done(rcv, len)
  }

  function ApplyUser(s: State, u: nat, mapped: bool): State
    requires u < |s.users| && UserEnabled(s, s.users[u])
  {
    var me := s.users[u];
    var s' := s.(users := s.users[u := me.(pc := NextPc(s, me, mapped))]);
    match me.pc
    case Spin => s'.(lock := true)
    case CopyRequest => s'.(mem := s.mem[me.phy := Area(Splice(s.mem[me.phy].req, 0, me.data), s.mem[me.phy].rep)])
    case SetPhy => s'.(rec := s.rec.(phy := me.phy))
    case SetLen => s'.(rec := s.rec.(len := |me.data|))
    case Post => s'.(pipe := s.pipe.(toMicad := s.pipe.toMicad + 1), posts := s.posts + [u])
    case Wait => s'.(pipe := s.pipe.(toUser := s.pipe.toUser - 1))
    case Release(_, _) => s'.(lock := false)
    case _ => s'
  }

  predicate Enabled(s: State, step: Step) {
    var p := s.pipe;
    match step
    case UserStep(u, _) => u < |s.users| && UserEnabled(s, s.users[u])
    case TxTake => p.tx.TWait? && p.toMicad > 0
    case TxPhy => p.tx.TPhy?
    case TxLen => p.tx.TLen?
    case TxSend => p.tx.TSend?
    case RtosGreeting => p.rtos.RIdle? && p.greeting
    case RtosTake => p.rtos.RIdle? && !p.greeting && p.out != []
    // any reply that fits the reply area, whatever the request
    case RtosReply(reply) =>
      && p.rtos.RWork? && p.rtos.phy in s.mem && p.rtos.len <= |s.mem[p.rtos.phy].req|
      && |reply| <= |s.mem[p.rtos.phy].rep|
    case RtosSend => p.rtos.RSend?
    case RxSet => !p.posting && p.back != []
    case RxPost => p.posting
  }

  function Apply(s: State, step: Step): State
    requires Enabled(s, step)
  {
    var p := s.pipe;
    match step
    case UserStep(u, mapped) => ApplyUser(s, u, mapped)
    case TxTake => s.(pipe := p.(tx := TPhy, toMicad := p.toMicad - 1))
    case TxPhy => s.(pipe := p.(tx := TLen(s.rec.phy)))
    case TxLen => s.(pipe := p.(tx := TSend(p.tx.phy, s.rec.len)))
    case TxSend => s.(pipe := p.(tx := TWait, out := p.out + [Msg(p.tx.phy, p.tx.len)]))
    case RtosGreeting => s.(pipe := p.(greeting := false))
    case RtosTake => s.(pipe := p.(rtos := RWork(p.out[0].phy, p.out[0].len), out := p.out[1..]))
    case RtosReply(reply) =>
      var a := s.mem[p.rtos.phy];
      s.(pipe := p.(rtos := RSend(|reply|)), mem := s.mem[p.rtos.phy := Area(a.req, Splice(a.rep, 0, reply))],
         log := s.log + [Entry(p.rtos.phy, a.req[..p.rtos.len], reply)])
    case RtosSend => s.(pipe := p.(rtos := RIdle, back := p.back + [p.rtos.n]))
    case RxSet => s.(pipe := p.(posting := true, back := p.back[1..]), rec := s.rec.(rcvLen := p.back[0]))
    case RxPost => s.(pipe := p.(posting := false, toUser := p.toUser + 1))
  }

  // ---------- the invariant ----------

  /** Between taking the lock and giving it back; a failed call never gives it back. */
  predicate Critical(pc: Pc) {
    !(pc.Start? || pc.Spin? || pc.Done? || pc.Rejected?)
  }

  /** The lock is taken exactly while one call is in its critical section. */
  ghost predicate LockInv(s: State) {
    && (s.lock ==> exists u :: 0 <= u < |s.users| && Critical(s.users[u].pc))
    && (forall u :: 0 <= u < |s.users| && Critical(s.users[u].pc) ==> s.lock)
    && forall u, v | 0 <= u < |s.users| && 0 <= v < |s.users| ::
         Critical(s.users[u].pc) && Critical(s.users[v].pc) ==> u == v
  }

  lemma LockKeptUser(s: State, u: nat, mapped: bool)
    requires LockInv(s) && u < |s.users| && UserEnabled(s, s.users[u])
    ensures LockInv(ApplyUser(s, u, mapped))
  {
    var s' := ApplyUser(s, u, mapped);
    if s'.lock {
      assert exists v :: 0 <= v < |s'.users| && Critical(s'.users[v].pc) by {
        if Critical(s'.users[u].pc) {
        } else {
          var v :| 0 <= v < |s.users| && Critical(s.users[v].pc);
          assert s'.users[v].pc == s.users[v].pc;
        }
      }
    }
  }

  function Bit(b: bool): nat {
    if b then 1 else 0
  }

  /** Everything that stands for a request under way, wherever it is. */
  function Tokens(p: Pipe): nat {
    p.toMicad + Bit(p.tx != TWait) + |p.out| + Bit(p.rtos != RIdle) + |p.back| + Bit(p.posting) + p.toUser
  }

  /** Requests posted and not answered yet. */
  function Unanswered(p: Pipe): nat {
    p.toMicad + Bit(p.tx != TWait) + |p.out| + Bit(p.rtos.RWork?)
  }

  /** The post has been made. */
  predicate Posted(pc: Pc) {
    pc.Wait? || pc.CopyReply? || pc.GetLen? || pc.Release? || pc.Done?
  }

  /**
    Every call posts once, and the `k`-th answer is to the `k`-th post: what the RTOS read is what
    that caller passed.
   */
  ghost predicate LogInv(s: State) {
    && |s.log| + Unanswered(s.pipe) == |s.posts|
    && (forall k :: 0 <= k < |s.posts| ==> s.posts[k] < |s.users| && Posted(s.users[s.posts[k]].pc))
    && (forall i, j :: 0 <= i < j < |s.posts| ==> s.posts[i] != s.posts[j])
    && (forall u :: 0 <= u < |s.users| && Posted(s.users[u].pc) ==> u in s.posts)
    && (forall k :: 0 <= k < |s.log| ==> OwnRequest(s, k))
  }

  ghost predicate OwnRequest(s: State, k: nat)
    requires k < |s.log|
  {
    && k < |s.posts| && s.posts[k] < |s.users|
    && s.log[k].phy == s.users[s.posts[k]].phy && s.log[k].data == s.users[s.posts[k]].data
  }

  /** The reply area of `me` holds the reply given last, of length `n`. */
  ghost predicate Answered(s: State, me: User, n: nat) {
    && s.log != [] && me.phy in s.mem
    && n == |s.log[|s.log| - 1].reply| <= |s.mem[me.phy].rep|
    && s.mem[me.phy].rep[..n] == s.log[|s.log| - 1].reply
  }

  /** The request area of `me` holds its request. */
  ghost predicate Asked(mem: map<nat, Area>, me: User) {
    && me.phy in mem && |me.data| <= |mem[me.phy].req|
    && mem[me.phy].req[..|me.data|] == me.data
  }

  /** `u` was the last to post. */
  ghost predicate Latest(s: State, u: nat) {
    s.posts != [] && s.posts[|s.posts| - 1] == u
  }

  /** The answer to the post of `u` was `rcv`. */
  ghost predicate Returned(s: State, u: nat, rcv: seq<byte>) {
    forall k :: 0 <= k < |s.posts| && s.posts[k] == u ==> k < |s.log| && s.log[k].reply == rcv
  }

  /** What is known at each statement of a call. */
  ghost predicate CallFacts(s: State, u: nat)
    requires u < |s.users|
  {
    var me := s.users[u];
    match me.pc
    case SetPhy => Asked(s.mem, me)
    case SetLen => Asked(s.mem, me) && s.rec.phy == me.phy
    case Post => Asked(s.mem, me) && s.rec.phy == me.phy && s.rec.len == |me.data|
    case Wait => Asked(s.mem, me) && s.rec.phy == me.phy && s.rec.len == |me.data| && Latest(s, u)
    case CopyReply => Latest(s, u) && Answered(s, me, s.rec.rcvLen)
    case GetLen(rcv) => Returned(s, u, rcv) && s.rec.rcvLen == |rcv|
    case Release(rcv, len) => Returned(s, u, rcv) && len == |rcv|
    case Done(rcv, len) => Returned(s, u, rcv) && len == |rcv|
    case _ => true
  }

  /** Wherever the token is, it carries the waiting caller's request, or the reply to it. */
  ghost predicate TokenFacts(s: State, me: User) {
    var p := s.pipe;
    && (p.tx.TLen? ==> p.tx == TLen(me.phy))
    && (p.tx.TSend? ==> p.tx == TSend(me.phy, |me.data|))
    && (p.out != [] ==> p.out[0] == Msg(me.phy, |me.data|))
    && (p.rtos.RWork? ==> p.rtos == RWork(me.phy, |me.data|))
    && (p.rtos.RSend? ==> Answered(s, me, p.rtos.n))
    && (p.back != [] ==> Answered(s, me, p.back[0]))
    && (p.posting || p.toUser > 0 ==> Answered(s, me, s.rec.rcvLen))
  }

  /** One token while a call waits, none otherwise. */
  ghost predicate TokenInv(s: State) {
    && (forall u :: 0 <= u < |s.users| && s.users[u].pc.Wait? ==>
          Tokens(s.pipe) == 1 && TokenFacts(s, s.users[u]))
    && ((forall u :: 0 <= u < |s.users| ==> !s.users[u].pc.Wait?) ==> Tokens(s.pipe) == 0)
  }

  ghost predicate MemInv(s: State) {
    && (forall u :: 0 <= u < |s.users| ==> s.users[u].phy in s.mem)
    && (forall u :: 0 <= u < |s.users| && (Critical(s.users[u].pc) || s.users[u].pc.Spin?)
          ==> |s.users[u].data| <= COPY_SIZE)
    && (forall a :: a in s.mem ==> |s.mem[a].req| == |s.mem[a].rep| == COPY_SIZE)
  }

  ghost predicate CallsInv(s: State) {
    forall u :: 0 <= u < |s.users| ==> CallFacts(s, u)
  }

  ghost predicate Inv(s: State) {
    LockInv(s) && MemInv(s) && LogInv(s) && CallsInv(s) && TokenInv(s)
  }

  // ---------- steps of the pipe ----------

  lemma PipeConserves(s: State, step: Step)
    requires Enabled(s, step) && !step.UserStep?
    ensures var s' := Apply(s, step);
            && Tokens(s'.pipe) == Tokens(s.pipe)
            && |s'.log| + Unanswered(s'.pipe) == |s.log| + Unanswered(s.pipe)
            && s'.users == s.users && s'.lock == s.lock && s'.posts == s.posts && s.log <= s'.log
    ensures Tokens(s.pipe) == 0 ==> step == RtosGreeting
  {
  }

  /** The facts about the waiting call and its token. */
  ghost predicate Waiting(s: State, u: nat) {
    && u < |s.users| && s.users[u].pc.Wait? && CallFacts(s, u)
    && Tokens(s.pipe) == 1 && TokenFacts(s, s.users[u])
  }

  lemma TxFacts(s: State, step: Step, u: nat)
    requires Enabled(s, step) && (step.TxTake? || step.TxPhy? || step.TxLen? || step.TxSend? || step.RtosGreeting?)
    requires Waiting(s, u)
    ensures Waiting(Apply(s, step), u)
  {
  }

  lemma RtosFacts(s: State, step: Step, u: nat)
    requires Enabled(s, step) && (step.RtosTake? || step.RtosReply? || step.RtosSend?)
    requires Waiting(s, u)
    ensures Waiting(Apply(s, step), u)
  {
    if step.RtosReply? {
      var s' := Apply(s, step);
      var me := s.users[u];
      assert s'.mem[me.phy].rep[..|step.reply|] == step.reply;
    }
  }

  lemma RxFacts(s: State, step: Step, u: nat)
    requires Enabled(s, step) && (step.RxSet? || step.RxPost?)
    requires Waiting(s, u)
    ensures Waiting(Apply(s, step), u)
  {
  }

  lemma PipeMem(s: State, step: Step)
    requires MemInv(s) && Enabled(s, step) && !step.UserStep?
    ensures MemInv(Apply(s, step))
  {
  }

  /** Only an answer adds to the log, and it answers the call that posted last. */
  lemma PipeLog(s: State, step: Step, u: nat)
    requires LogInv(s) && Waiting(s, u) && Enabled(s, step) && !step.UserStep?
    ensures LogInv(Apply(s, step))
  {
    PipeConserves(s, step);
    var s' := Apply(s, step);
    if step.RtosReply? {
      assert s'.log == s.log + [Entry(s.users[u].phy, s.users[u].data, step.reply)];
    } else {
      assert s'.log == s.log;
    }
    hide Apply, Enabled, TokenFacts, Tokens, Unanswered;
    forall k | 0 <= k < |s'.log|
      ensures OwnRequest(s', k)
    {
      assert k < |s.log| ==> OwnRequest(s, k);
    }
  }

  /** A finished call keeps its answer while logs grow by other calls' entries. */
  lemma ReturnedStays(s: State, s': State, u: nat, rcv: seq<byte>)
    requires Returned(s, u, rcv) && s.posts <= s'.posts && s.log <= s'.log
    requires forall k :: |s.posts| <= k < |s'.posts| ==> s'.posts[k] != u
    ensures Returned(s', u, rcv)
  {
  }

  /** Outside its critical section a call depends on nothing but its answer. */
  lemma OutsiderKeeps(s: State, s': State, v: nat)
    requires v < |s.users| && v < |s'.users| && s'.users[v] == s.users[v] && !Critical(s.users[v].pc)
    requires CallFacts(s, v) && s.posts <= s'.posts && s.log <= s'.log
    requires forall k :: |s.posts| <= k < |s'.posts| ==> s'.posts[k] != v
    ensures CallFacts(s', v)
  {
    hide Returned;
    if s.users[v].pc.Done? {
      ReturnedStays(s, s', v, s.users[v].pc.rcv);
    }
  }

  lemma GreetingKeeps(s: State)
    requires LogInv(s) && CallsInv(s) && TokenInv(s) && Enabled(s, RtosGreeting)
    ensures LogInv(Apply(s, RtosGreeting)) && CallsInv(Apply(s, RtosGreeting)) && TokenInv(Apply(s, RtosGreeting))
  {
    var s' := s.(pipe := s.pipe.(greeting := false));
    assert Apply(s, RtosGreeting) == s';
    hide Apply, Enabled;
    assert Unanswered(s'.pipe) == Unanswered(s.pipe) && Tokens(s'.pipe) == Tokens(s.pipe);
    hide Tokens, Unanswered;
    GreetingCalls(s);
    forall k | 0 <= k < |s.log|
      ensures OwnRequest(s', k)
    {
      assert OwnRequest(s, k);
    }
    hide CallsInv;
  }

  lemma GreetingCalls(s: State)
    requires CallsInv(s)
    ensures CallsInv(s.(pipe := s.pipe.(greeting := false)))
  {
    forall v | 0 <= v < |s.users|
      ensures CallFacts(s.(pipe := s.pipe.(greeting := false)), v)
    {
      assert CallFacts(s, v);
    }
  }

  /** A pipe step touches shared data only on behalf of a waiting call. */
  lemma PipeKeeps(s: State, step: Step)
    requires Inv(s) && Enabled(s, step) && !step.UserStep?
    ensures Inv(Apply(s, step))
  {
    hide Apply, Enabled, MemInv, LogInv, TokenFacts, CallFacts, Tokens;
    PipeConserves(s, step);
    PipeMem(s, step);
    if u :| 0 <= u < |s.users| && s.users[u].pc.Wait? {
      PipeWithOwner(s, step, u);
    } else {
      GreetingKeeps(s);
    }
  }

  lemma PipeWithOwner(s: State, step: Step, u: nat)
    requires Inv(s) && Enabled(s, step) && !step.UserStep?
    requires u < |s.users| && s.users[u].pc.Wait?
    ensures LogInv(Apply(s, step)) && CallsInv(Apply(s, step)) && TokenInv(Apply(s, step))
  {
    hide Apply, Enabled, TokenFacts, MemInv, LogInv, CallFacts, Tokens;
    var s' := Apply(s, step);
    PipeConserves(s, step);
    PipeLog(s, step, u);
    if step.TxTake? || step.TxPhy? || step.TxLen? || step.TxSend? || step.RtosGreeting? {
      TxFacts(s, step, u);
    } else if step.RxSet? || step.RxPost? {
      RxFacts(s, step, u);
    } else {
      RtosFacts(s, step, u);
    }
    forall v | 0 <= v < |s.users|
      ensures CallFacts(s', v) && (s.users[v].pc.Wait? ==> v == u)
    {
      assert Critical(s.users[u].pc);
      if v != u {
        assert !Critical(s.users[v].pc);
        OutsiderKeeps(s, s', v);
      }
    }
  }

  // ---------- steps of a call ----------

  lemma UserMem(s: State, u: nat, mapped: bool)
    requires MemInv(s) && u < |s.users| && UserEnabled(s, s.users[u])
    ensures MemInv(ApplyUser(s, u, mapped))
  {
  }

  /** What a step of a call leaves alone. */
  lemma OthersStay(s: State, u: nat, mapped: bool)
    requires u < |s.users| && UserEnabled(s, s.users[u])
    ensures var s' := ApplyUser(s, u, mapped);
            && s'.users == s.users[u := s'.users[u]] && s'.users[u] == s.users[u].(pc := s'.users[u].pc)
            && s'.log == s.log
            && s'.posts == (if s.users[u].pc.Post? then s.posts + [u] else s.posts)
            && Unanswered(s'.pipe) == Unanswered(s.pipe) + |s'.posts| - |s.posts|
            && Posted(s'.users[u].pc) == (Posted(s.users[u].pc) || s.users[u].pc.Post?)
  {
  }

  lemma UserLog(s: State, u: nat, mapped: bool)
    requires LogInv(s) && u < |s.users| && UserEnabled(s, s.users[u])
    ensures LogInv(ApplyUser(s, u, mapped))
  {
    hide ApplyUser, UserEnabled, Unanswered;
    var s' := ApplyUser(s, u, mapped);
    OthersStay(s, u, mapped);
    if s.users[u].pc.Post? {
      assert u !in s.posts;
    }
    forall k | 0 <= k < |s'.posts|
      ensures s'.posts[k] < |s'.users| && Posted(s'.users[s'.posts[k]].pc)
    {
      assert k < |s.posts| ==> Posted(s.users[s.posts[k]].pc);
    }
    forall v | 0 <= v < |s'.users| && Posted(s'.users[v].pc)
      ensures v in s'.posts
    {
      if v != u || Posted(s.users[u].pc) {
        assert v in s.posts;
      } else {
        assert s'.posts[|s.posts|] == u;
      }
    }
    forall k | 0 <= k < |s'.log|
      ensures OwnRequest(s', k)
    {
      assert OwnRequest(s, k);
    }
  }

  /** Outside its critical section a call changes nothing shared but the lock. */
  lemma OutsideFrame(s: State, u: nat, mapped: bool)
    requires u < |s.users| && UserEnabled(s, s.users[u]) && !Critical(s.users[u].pc)
    ensures var s' := ApplyUser(s, u, mapped);
            s'.rec == s.rec && s'.pipe == s.pipe && s'.mem == s.mem && !s'.users[u].pc.Wait? && !s'.users[u].pc.Done?
            && (Critical(s'.users[u].pc) ==> s'.users[u].pc.MapCore?)
  {
  }

  /** The reply copied is the answer to the caller's own post. */
  lemma ReplyIsOwn(s: State, u: nat)
    requires LogInv(s) && Latest(s, u) && Unanswered(s.pipe) == 0 && s.log != []
    ensures Returned(s, u, s.log[|s.log| - 1].reply)
  {
    hide Unanswered;
  }

  /** The mover's own facts carry over to its next statement. */
  lemma MoverFacts(s: State, u: nat, mapped: bool)
    requires LogInv(s) && u < |s.users| && UserEnabled(s, s.users[u]) && CallFacts(s, u)
    requires s.users[u].pc.Wait? ==> Waiting(s, u)
    requires !s.users[u].pc.Wait? ==> Tokens(s.pipe) == 0
    ensures CallFacts(ApplyUser(s, u, mapped), u)
  {
    hide LogInv, Returned;
    var me, s' := s.users[u], ApplyUser(s, u, mapped);
    if me.pc.CopyRequest? {
      assert s'.mem[me.phy].req[..|me.data|] == me.data;
    } else if me.pc.CopyReply? {
      ReplyIsOwn(s, u);
      ReturnedStays(s, s', u, s.log[|s.log| - 1].reply);
    } else if me.pc.GetLen? || me.pc.Release? {
      ReturnedStays(s, s', u, me.pc.rcv);
    }
  }

  /** Posting makes the one token, waking from the wait consumes it. */
  lemma MoverTokens(s: State, u: nat, mapped: bool)
    requires u < |s.users| && UserEnabled(s, s.users[u])
    requires s.users[u].pc.Wait? ==> Tokens(s.pipe) == 1
    requires !s.users[u].pc.Wait? ==> Tokens(s.pipe) == 0
    ensures var s' := ApplyUser(s, u, mapped);
            && (s'.users[u].pc.Wait? ==> Tokens(s'.pipe) == 1 && TokenFacts(s', s'.users[u]))
            && (!s'.users[u].pc.Wait? ==> Tokens(s'.pipe) == 0)
  {
  }

  /** While a call is in its critical section, no other call waits. */
  lemma TokensInside(s: State, u: nat)
    requires LockInv(s) && CallsInv(s) && TokenInv(s) && u < |s.users| && Critical(s.users[u].pc)
    ensures forall v :: 0 <= v < |s.users| && v != u ==> !Critical(s.users[v].pc)
    ensures s.users[u].pc.Wait? ==> Waiting(s, u)
    ensures !s.users[u].pc.Wait? ==> Tokens(s.pipe) == 0
  {
    hide Tokens, TokenFacts, CallFacts;
    assert forall v :: 0 <= v < |s.users| && v != u ==> !Critical(s.users[v].pc);
  }

  lemma UserKeepsInside(s: State, u: nat, mapped: bool)
    requires Inv(s) && u < |s.users| && UserEnabled(s, s.users[u]) && Critical(s.users[u].pc)
    ensures CallsInv(ApplyUser(s, u, mapped)) && TokenInv(ApplyUser(s, u, mapped))
  {
    hide ApplyUser, UserEnabled, Tokens, TokenFacts, CallFacts, LockInv, MemInv, LogInv;
    var s' := ApplyUser(s, u, mapped);
    TokensInside(s, u);
    MoverFacts(s, u, mapped);
    MoverTokens(s, u, mapped);
    OthersStay(s, u, mapped);
    forall v | 0 <= v < |s'.users|
      ensures CallFacts(s', v)
    {
      if v != u {
        OutsiderKeeps(s, s', v);
      }
    }
  }

  lemma UserKeepsOutside(s: State, u: nat, mapped: bool)
    requires Inv(s) && u < |s.users| && UserEnabled(s, s.users[u]) && !Critical(s.users[u].pc)
    ensures CallsInv(ApplyUser(s, u, mapped)) && TokenInv(ApplyUser(s, u, mapped))
  {
    hide ApplyUser, UserEnabled, LockInv, MemInv, LogInv;
    var s' := ApplyUser(s, u, mapped);
    OutsideFrame(s, u, mapped);
    OthersStay(s, u, mapped);
    forall v | 0 <= v < |s'.users|
      ensures CallFacts(s', v)
    {
      assert CallFacts(s, v);
    }
    hide CallFacts;
    if w :| 0 <= w < |s.users| && s.users[w].pc.Wait? {
      assert s'.users[w].pc.Wait?;
    }
    forall v | 0 <= v < |s'.users| && s'.users[v].pc.Wait?
      ensures Tokens(s'.pipe) == 1 && TokenFacts(s', s'.users[v])
    {
      assert s.users[v].pc.Wait?;
    }
  }

  lemma StepKeeps(s: State, step: Step)
    requires Inv(s) && Enabled(s, step)
    ensures Inv(Apply(s, step))
  {
    hide ApplyUser, UserEnabled, LockInv, MemInv, LogInv, CallsInv, TokenInv;
    if step.UserStep? {
      LockKeptUser(s, step.u, step.mapped);
      UserMem(s, step.u, step.mapped);
      UserLog(s, step.u, step.mapped);
      if Critical(s.users[step.u].pc) {
        UserKeepsInside(s, step.u, step.mapped);
      } else {
        UserKeepsOutside(s, step.u, step.mapped);
      }
    } else {
      PipeKeeps(s, step);
    }
  }

  // ---------- runs ----------

  predicate Legal(s: State, steps: seq<Step>)
    decreases |steps|
  {
    steps == [] || (Enabled(s, steps[0]) && Legal(Apply(s, steps[0]), steps[1..]))
  }

  function Exec(s: State, steps: seq<Step>): State
    requires Legal(s, steps)
    decreases |steps|
  {
    if steps == [] then s else Exec(Apply(s, steps[0]), steps[1..])
  }

  lemma {:induction false} RunKeeps(s: State, steps: seq<Step>)
    requires Inv(s) && Legal(s, steps)
    ensures Inv(Exec(s, steps))
    decreases |steps|
  {
    hide Enabled, Apply, Inv;
    if steps != [] {
      StepKeeps(s, steps[0]);
      RunKeeps(Apply(s, steps[0]), steps[1..]);
    }
  }

  ghost predicate Reachable(s: State) {
    exists s0, steps :: IsInit(s0) && Legal(s0, steps) && Exec(s0, steps) == s
  }

  lemma ReachableInv(s: State)
    requires Reachable(s)
    ensures Inv(s)
  {
    var s0, steps :| IsInit(s0) && Legal(s0, steps) && Exec(s0, steps) == s;
    assert Inv(s0);
    RunKeeps(s0, steps);
  }

  lemma {:induction false} InputsFixed(s: State, steps: seq<Step>)
    requires Legal(s, steps)
    ensures var t := Exec(s, steps);
            && |t.users| == |s.users|
            && forall u :: 0 <= u < |s.users| ==> t.users[u] == s.users[u].(pc := t.users[u].pc)
    decreases |steps|
  {
    if steps != [] {
      StepInputs(s, steps[0]);
      hide Enabled, Apply;
      InputsFixed(Apply(s, steps[0]), steps[1..]);
    }
  }

  lemma StepInputs(s: State, step: Step)
    requires Enabled(s, step)
    ensures var t := Apply(s, step);
            && |t.users| == |s.users|
            && forall u :: 0 <= u < |s.users| ==> t.users[u] == s.users[u].(pc := t.users[u].pc)
  {
  }

  /**
    Over every run, whatever the RTOS replies: a call that returns success hands back the reply of
    exactly one answer, the one to its own post, given for the address and data it passed.  No other
    call has that answer, since every answer belongs to one post and no call posts twice.
   */
  lemma RepliesMatch(s0: State, steps: seq<Step>, u: nat)
    requires IsInit(s0) && Legal(s0, steps) && u < |s0.users|
    ensures var s := Exec(s0, steps);
            && |s.users| == |s0.users| && |s.log| <= |s.posts|
            && (s.users[u].pc.Done? ==>
                  exists k :: 0 <= k < |s.log| && s.posts[k] == u
                    && s.log[k] == Entry(s0.users[u].phy, s0.users[u].data, s.users[u].pc.rcv)
                    && s.users[u].pc.len == |s.log[k].reply|)
            && forall i, j :: 0 <= i < j < |s.posts| ==> s.posts[i] != s.posts[j]
  {
    hide Exec, Legal, LockInv, MemInv, TokenInv, Unanswered, IsInit;
    var s := Exec(s0, steps);
    InputsFixed(s0, steps);
    assert Reachable(s);
    ReachableInv(s);
    hide Reachable;
    if s.users[u].pc.Done? {
      FoundInLog(s, u);
    }
  }

  lemma FoundInLog(s: State, u: nat)
    requires LogInv(s) && u < |s.users| && s.users[u].pc.Done? && CallFacts(s, u)
    ensures exists k :: 0 <= k < |s.log| <= |s.posts| && s.posts[k] == u
              && s.log[k] == Entry(s.users[u].phy, s.users[u].data, s.users[u].pc.rcv)
              && s.users[u].pc.len == |s.log[k].reply|
  {
    hide Unanswered;
    assert u in s.posts;
    var k :| 0 <= k < |s.posts| && s.posts[k] == u;
    assert k < |s.log| && OwnRequest(s, k);
  }

  /**
    An answer is given while exactly one call waits, the one that posted last and has no answer yet;
    the answer takes the place in the log of that post.
   */
  lemma AnswersTheWaiter(s: State, reply: seq<byte>)
    requires Reachable(s) && Enabled(s, RtosReply(reply))
    ensures |s.posts| == |s.log| + 1
    ensures exists u :: 0 <= u < |s.users| && s.users[u].pc.Wait? && s.posts[|s.log|] == u
                        && forall v :: 0 <= v < |s.users| && s.users[v].pc.Wait? ==> v == u
  {
    ReachableInv(s);
    hide MemInv, TokenFacts;
    assert Tokens(s.pipe) >= 1;
    var u :| 0 <= u < |s.users| && s.users[u].pc.Wait?;
    assert CallFacts(s, u) && Critical(s.users[u].pc);
  }

  /**
    At most one request is under way, over semaphores, tx task, channels, RTOS and callback
    together; exactly one while some call waits, none otherwise; and at most one call is between
    taking the lock and releasing it.
   */
  lemma OneToken(s: State)
    requires Reachable(s)
    ensures Tokens(s.pipe) == if exists u :: 0 <= u < |s.users| && s.users[u].pc.Wait? then 1 else 0
    ensures forall u, v | 0 <= u < |s.users| && 0 <= v < |s.users| ::
              Critical(s.users[u].pc) && Critical(s.users[v].pc) ==> u == v
  {
    ReachableInv(s);
    if u :| 0 <= u < |s.users| && s.users[u].pc.Wait? {
      assert Tokens(s.pipe) == 1;
    }
  }
}
