/**
  One writer and one reader on the same ring, interleaved in any way.  Each side loads the other's
  counter once, copies its bytes one by one in any order on the strength of that possibly stale
  value, and only then publishes its own counter.  Memory is sequentially consistent.
 */
module RingProtocol {
  import opened Words
  import opened Ring
  import opened RingFifo
  import opened RingRuns

  /** Where `ring_buffer_write` is; `cnt` bytes of `buf` are published. */
  datatype Writer =
    | WIdle
    | WLoop(buf: seq<byte>, cnt: nat)
    | WCopy(buf: seq<byte>, cnt: nat, n: nat, done: set<nat>)

  /** Where `ring_buffer_read` is; `got` holds the bytes fetched so far. */
  datatype Reader =
    | RIdle
    | RCopy(n: nat, got: map<nat, byte>)

  /** The shared ring, the two programs, and what an observer has seen. */
  datatype State = State(
    ring: Ring,
    w: Writer,
    r: Reader,
    returned: seq<seq<byte>>,
    sent: seq<byte>,
    received: seq<byte>)

  datatype Step =
    | CallWrite(buf: seq<byte>)
    | LoadOut
    | Store(j: nat)
    | PublishIn
    | ReturnWrite
    | CallRead(len: u32)
    | Fetch(j: nat)
    | PublishOut

  function Init(data: seq<byte>): State {
    State(Cleared(data), WIdle, RIdle, [], [], [])
  }

  /** The cell of the `j`-th byte counted from a counter value, as the two-part memcpy reaches it. */
  function CellFrom(ring: Ring, counter: u32, j: nat): (k: nat)
    requires j < ring.Size()
    ensures k < ring.Size()
  {
    Slot(ring.Size(), Cell(counter, ring.Size()), j)
  }

  predicate AllBelow(n: nat, done: set<nat>) {
    forall j: nat | j < n :: j in done
  }

  predicate Enabled(s: State, step: Step) {
    s.ring.Valid() &&
    match step
    case CallWrite(buf) => s.w.WIdle? && |buf| < TWO31
    case LoadOut => s.w.WLoop? && s.w.cnt < |s.w.buf|
    case Store(j) => s.w.WCopy? && j < s.w.n && j !in s.w.done && j < s.ring.Size() && s.w.cnt + j < |s.w.buf|
    case PublishIn => s.w.WCopy? && AllBelow(s.w.n, s.w.done) && s.w.cnt + s.w.n <= |s.w.buf| && s.w.n < TWO32
    case ReturnWrite => s.w.WLoop? && s.w.cnt >= |s.w.buf|
    case CallRead(len) => s.r.RIdle?
    case Fetch(j) => s.r.RCopy? && j < s.r.n && j !in s.r.got && j < s.ring.Size()
    case PublishOut => s.r.RCopy? && AllBelow(s.r.n, s.r.got.Keys) && s.r.n < TWO32
  }

  function Apply(s: State, step: Step): State
    requires Enabled(s, step)
  {
    match step
    case CallWrite(buf) => s.(w := WLoop(buf, 0))
    case LoadOut =>
      var n := Min(|s.w.buf| - s.w.cnt, s.ring.Unused());
      s.(w := WCopy(s.w.buf, s.w.cnt, n, {}))
    case Store(j) =>
      var k := CellFrom(s.ring, s.ring.inn, j);
      s.(ring := s.ring.(data := s.ring.data[k := s.w.buf[s.w.cnt + j]]),
         w := s.w.(done := s.w.done + {j}))
    case PublishIn =>
      s.(ring := s.ring.(inn := Add32(s.ring.inn, s.w.n)),
         w := WLoop(s.w.buf, s.w.cnt + s.w.n),
         sent := s.sent + s.w.buf[s.w.cnt..s.w.cnt + s.w.n])
    case ReturnWrite => s.(w := WIdle, returned := s.returned + [s.w.buf])
    case CallRead(len) => s.(r := RCopy(Min(len, s.ring.Used()), map[]))
    case Fetch(j) => s.(r := s.r.(got := s.r.got[j := s.ring.data[CellFrom(s.ring, s.ring.out, j)]]))
    case PublishOut =>
      s.(ring := s.ring.(out := Add32(s.ring.out, s.r.n)),
         r := RIdle,
         received := s.received + seq(s.r.n, j requires j in s.r.got => s.r.got[j]))
  }

  // ---------- the invariant ----------

  /** Bytes published or about to be. */
  function Committed(s: State): nat {
    |s.sent| + if s.w.WCopy? then s.w.n else 0
  }

  ghost predicate Safe(s: State) {
    0 < s.ring.Size() && (Divides(s.ring.Size()) || Committed(s) <= TWO32)
  }

  function Flatten(bufs: seq<seq<byte>>): seq<byte> {
    if bufs == [] then [] else Flatten(bufs[..|bufs| - 1]) + bufs[|bufs| - 1]
  }

  /** Unread bytes are in place. */
  ghost predicate UnreadInPlace(s: State)
    requires 0 < s.ring.Size()
  {
    forall k :: |s.received| <= k < |s.sent| ==> s.ring.data[Cell(k, s.ring.Size())] == s.sent[k]
  }

  /** The writer stays inside free space, and what it has stored is in place. */
  ghost predicate WriterFine(s: State)
    requires 0 < s.ring.Size()
  {
    match s.w
    case WIdle => true
    case WLoop(buf, cnt) => cnt <= |buf|
    case WCopy(buf, cnt, n, done) =>
      && cnt + n <= |buf|
      && |s.sent| + n <= |s.received| + s.ring.Size()
      && forall j :: j in done ==> j < n && s.ring.data[Cell(|s.sent| + j, s.ring.Size())] == buf[cnt + j]
  }

  /** The reader stays inside published bytes, and what it has fetched is right. */
  ghost predicate ReaderFine(s: State) {
    s.r.RCopy? ==>
      && |s.received| + s.r.n <= |s.sent|
      && forall j :: j in s.r.got ==> j < s.r.n && s.r.got[j] == s.sent[|s.received| + j]
  }

  /** Completed calls went out whole and in order, then the published part of the running one. */
  ghost predicate CallsWhole(s: State)
    requires 0 < s.ring.Size() && WriterFine(s)
  {
    s.sent == Flatten(s.returned) + if s.w.WIdle? then [] else s.w.buf[..s.w.cnt]
  }

  ghost predicate Inv(s: State) {
    && Counts(s.ring, |s.sent|, |s.received|)
    && s.received == s.sent[..|s.received|]
    && UnreadInPlace(s)
    && WriterFine(s)
    && ReaderFine(s)
    && CallsWhole(s)
  }

  /** While safe, the cell the writer or reader touches is the cell of that position in the stream. */
  lemma TouchedCell(ring: Ring, counter: u32, total: nat, j: nat)
    requires 0 < ring.Size() && j < ring.Size() && counter == Wrap32(total)
    requires Divides(ring.Size()) || total < TWO32
    ensures CellFrom(ring, counter, j) == Cell(total + j, ring.Size())
  {
    if Divides(ring.Size()) {
      WrapHarmless(ring.Size(), total);
    }
    SlotIsMod(ring.Size(), total, j);
  }

  /** The cell being written is not the cell of any unread byte or of another byte of the copy. */
  lemma StoreElsewhere(size: nat, r: nat, at: nat, k: nat)
    requires r <= k < r + size && r <= at < r + size && k != at
    ensures Cell(k, size) != Cell(at, size)
  {
    if k < at {
      CellsDiffer(size, k, at);
    } else {
      CellsDiffer(size, at, k);
    }
  }

  lemma StoreUnread(s: State, j: nat)
    requires Inv(s) && Safe(s) && Enabled(s, Store(j))
    ensures UnreadInPlace(Apply(s, Store(j)))
  {
    hide Cell, Slot, Wrap32, Flatten, CallsWhole, ReaderFine;
    var size, w := s.ring.Size(), |s.sent|;
    TouchedCell(s.ring, s.ring.inn, w, j);
    forall k | |s.received| <= k < |s.sent|
      ensures Apply(s, Store(j)).ring.data[Cell(k, size)] == s.sent[k]
    {
      StoreElsewhere(size, |s.received|, w + j, k);
    }
  }

  lemma StoreStored(s: State, j: nat)
    requires Inv(s) && Safe(s) && Enabled(s, Store(j))
    ensures WriterFine(Apply(s, Store(j)))
  {
    hide Cell, Slot, Wrap32, Flatten, CallsWhole, ReaderFine, UnreadInPlace;
    var s' := Apply(s, Store(j));
    var size, w := s.ring.Size(), |s.sent|;
    TouchedCell(s.ring, s.ring.inn, w, j);
    forall i | i in s'.w.done
      ensures i < s.w.n && s'.ring.data[Cell(w + i, size)] == s.w.buf[s.w.cnt + i]
    {
      if i != j {
        StoreElsewhere(size, |s.received|, w + j, w + i);
      }
    }
  }

  lemma StoreKeeps(s: State, j: nat)
    requires Inv(s) && Safe(s) && Enabled(s, Store(j))
    ensures Inv(Apply(s, Store(j)))
  {
    hide Cell, Slot, Wrap32, Flatten, UnreadInPlace;
    StoreUnread(s, j);
    StoreStored(s, j);
  }

  lemma PublishInKeeps(s: State)
    requires Inv(s) && Safe(s) && Enabled(s, PublishIn)
    ensures Inv(Apply(s, PublishIn))
  {
    hide Cell, Slot, Wrap32, Flatten, Counts, UnreadInPlace, AllBelow, CallsWhole;
    PublishedCounts(s.ring, |s.sent|, |s.received|, s.w.n);
    PublishedInPlace(s);
    PublishedWhole(s);
    var s' := Apply(s, PublishIn);
    assert s'.sent[..|s.received|] == s.sent[..|s.received|];
  }

  lemma PublishedInPlace(s: State)
    requires Inv(s) && Enabled(s, PublishIn)
    ensures UnreadInPlace(Apply(s, PublishIn))
  {
    hide Cell, Slot, Wrap32, Flatten, Counts;
    var s' := Apply(s, PublishIn);
    forall k | |s'.received| <= k < |s'.sent|
      ensures s'.ring.data[Cell(k, s'.ring.Size())] == s'.sent[k]
    {
      if k >= |s.sent| {
        assert k - |s.sent| in s.w.done;
      }
    }
  }

  lemma PublishedWhole(s: State)
    requires Inv(s) && Enabled(s, PublishIn)
    ensures WriterFine(Apply(s, PublishIn)) && CallsWhole(Apply(s, PublishIn))
  {
    hide Cell, Slot, Wrap32, Flatten, Counts, UnreadInPlace;
    var f, done, more := Flatten(s.returned), s.w.buf[..s.w.cnt], s.w.buf[s.w.cnt..s.w.cnt + s.w.n];
    assert done + more == s.w.buf[..s.w.cnt + s.w.n];
    assert f + (done + more) == (f + done) + more;
  }

  lemma PublishedCounts(ring: Ring, w: nat, r: nat, n: nat)
    requires Counts(ring, w, r) && n < TWO32 && w + n <= r + ring.Size()
    ensures Counts(ring.(inn := Add32(ring.inn, n)), w + n, r) && r <= w
  {
    CountsUsed(ring, w, r);
    Add32Wraps(w, n);
  }

  lemma ConsumedCounts(ring: Ring, w: nat, r: nat, n: nat)
    requires Counts(ring, w, r) && n < TWO32 && r + n <= w
    ensures Counts(ring.(out := Add32(ring.out, n)), w, r + n)
  {
    CountsUsed(ring, w, r);
    Add32Wraps(r, n);
  }

  lemma FetchKeeps(s: State, j: nat)
    requires Inv(s) && Safe(s) && Enabled(s, Fetch(j))
    ensures Inv(Apply(s, Fetch(j)))
  {
    hide Cell, Slot, Wrap32, Flatten;
    TouchedCell(s.ring, s.ring.out, |s.received|, j);
  }

  lemma PublishOutKeeps(s: State)
    requires Inv(s) && Safe(s) && Enabled(s, PublishOut)
    ensures Inv(Apply(s, PublishOut))
  {
    hide Cell, Slot, Wrap32, Flatten;
    var s' := Apply(s, PublishOut);
    ConsumedCounts(s.ring, |s.sent|, |s.received|, s.r.n);
    assert s'.received == s.sent[..|s.received| + s.r.n];
  }

  lemma FlattenGrows(bufs: seq<seq<byte>>, buf: seq<byte>)
    ensures Flatten(bufs + [buf]) == Flatten(bufs) + buf
  {
    assert (bufs + [buf])[..|bufs|] == bufs;
  }

  lemma ReturnKeeps(s: State)
    requires Inv(s) && Enabled(s, ReturnWrite)
    ensures Inv(Apply(s, ReturnWrite))
  {
    hide Cell, Slot, Wrap32, Flatten, Counts;
    FlattenGrows(s.returned, s.w.buf);
    assert s.w.buf[..s.w.cnt] == s.w.buf;
  }

  lemma LoadsKeep(s: State, step: Step)
    requires Inv(s) && Enabled(s, step)
    requires step.CallWrite? || step.LoadOut? || step.CallRead?
    ensures Inv(Apply(s, step))
  {
    hide Cell, Slot, Wrap32, Flatten;
    CountsUsed(s.ring, |s.sent|, |s.received|);
  }

  lemma StepKeeps(s: State, step: Step)
    requires Inv(s) && Enabled(s, step) && Safe(Apply(s, step))
    ensures Inv(Apply(s, step)) && Safe(s)
  {
    hide Inv;
    match step
    case Store(j) => StoreKeeps(s, j);
    case PublishIn => PublishInKeeps(s);
    case Fetch(j) => FetchKeeps(s, j);
    case PublishOut => PublishOutKeeps(s);
    case ReturnWrite => ReturnKeeps(s);
    case _ => LoadsKeep(s, step);
  }

  // ---------- runs ----------

  predicate Legal(s: State, steps: seq<Step>)
    decreases |steps|
  {
    steps == [] || (Enabled(s, steps[0]) && Legal(Apply(s, steps[0]), steps[1..]))
  }

  function Exec(s: State, steps: seq<Step>): State
    requires Legal(s, steps)
    decreases |steps|
  {
    if steps == [] then s else Exec(Apply(s, steps[0]), steps[1..])
  }

  lemma StepGrows(s: State, step: Step)
    requires Enabled(s, step)
    ensures Committed(s) <= Committed(Apply(s, step)) && Apply(s, step).ring.Size() == s.ring.Size()
  {
  }

  lemma {:induction false} RunGrows(s: State, steps: seq<Step>)
    requires Legal(s, steps)
    ensures Committed(s) <= Committed(Exec(s, steps)) && Exec(s, steps).ring.Size() == s.ring.Size()
    decreases |steps|
  {
    hide Enabled, Apply, Committed;
    if steps != [] {
      StepGrows(s, steps[0]);
      RunGrows(Apply(s, steps[0]), steps[1..]);
    }
  }

  lemma {:induction false} RunKeeps(s: State, steps: seq<Step>)
    requires Inv(s) && Legal(s, steps) && Safe(Exec(s, steps))
    ensures Inv(Exec(s, steps))
    decreases |steps|
  {
    hide Enabled, Apply, Committed, Inv;
    if steps != [] {
      RunGrows(Apply(s, steps[0]), steps[1..]);
      StepKeeps(s, steps[0]);
      RunKeeps(Apply(s, steps[0]), steps[1..]);
    }
  }

  /**
    In every interleaving, while the size divides 2^32 or at most 2^32 bytes are committed: the
    bytes received are a prefix of the bytes sent, every unread byte is still in its cell, and the
    stream sent is the returned calls, whole and in order, then part of the running one.
   */
  lemma InterleavingsAreFifo(data: seq<byte>, steps: seq<Step>)
    requires 0 < |data| < TWO32 && Legal(Init(data), steps)
    requires Divides(|data|) || Committed(Exec(Init(data), steps)) <= TWO32
    ensures var s := Exec(Init(data), steps);
            && s.received <= s.sent
            && |s.sent| <= |s.received| + |data| && |data| == s.ring.Size()
            && UnreadInPlace(s)
            && WriterFine(s) && CallsWhole(s)
  {
    assert Inv(Init(data)) by {
      hide Cell;
    }
    RunGrows(Init(data), steps);
    RunKeeps(Init(data), steps);
  }

  // ---------- what is sent is what was passed ----------

  /** The buffers passed to `ring_buffer_write`, in the order of the calls. */
  function Passed(steps: seq<Step>): seq<seq<byte>> {
    if steps == [] then []
    else (if steps[0].CallWrite? then [steps[0].buf] else []) + Passed(steps[1..])
  }

  /** Calls made so far are `bufs`: those returned, then the one running, if any, sent up to `cnt`. */
  ghost predicate SentOf(s: State, bufs: seq<seq<byte>>) {
    if s.w.WIdle? then s.returned == bufs && s.sent == Flatten(bufs)
    else
      && bufs != [] && s.returned == bufs[..|bufs| - 1] && s.w.buf == bufs[|bufs| - 1]
      && s.w.cnt <= |s.w.buf| && s.sent == Flatten(s.returned) + s.w.buf[..s.w.cnt]
  }

  lemma SentStep(s: State, step: Step, bufs: seq<seq<byte>>)
    requires SentOf(s, bufs) && Enabled(s, step)
    ensures SentOf(Apply(s, step), if step.CallWrite? then bufs + [step.buf] else bufs)
  {
    hide Flatten, Cell, Slot;
    if step.CallWrite? {
      assert (bufs + [step.buf])[..|bufs|] == bufs;
      assert Flatten(bufs) + step.buf[..0] == Flatten(bufs);
    } else if step.PublishIn? {
      var f, done, more := Flatten(s.returned), s.w.buf[..s.w.cnt], s.w.buf[s.w.cnt..s.w.cnt + s.w.n];
      assert done + more == s.w.buf[..s.w.cnt + s.w.n];
      assert f + (done + more) == (f + done) + more;
    } else if step.ReturnWrite? {
      FlattenGrows(s.returned, s.w.buf);
      assert s.w.buf[..s.w.cnt] == s.w.buf;
      assert bufs == s.returned + [s.w.buf];
    }
  }

  lemma {:induction false} SentRun(s: State, steps: seq<Step>, bufs: seq<seq<byte>>)
    requires SentOf(s, bufs) && Legal(s, steps)
    ensures SentOf(Exec(s, steps), bufs + Passed(steps))
    decreases |steps|
  {
    hide Enabled, Apply, SentOf;
    if steps == [] {
      assert bufs + [] == bufs;
    } else {
      var more := if steps[0].CallWrite? then bufs + [steps[0].buf] else bufs;
      SentStep(s, steps[0], bufs);
      SentRun(Apply(s, steps[0]), steps[1..], more);
      assert more + Passed(steps[1..]) == bufs + Passed(steps);
    }
  }

  /**
    In every interleaving, of any length: with `bufs` the buffers passed so far, the calls returned
    are all of them, or all but the last while that one is running, and the bytes sent are those of
    the returned calls in order, followed by a prefix of the running one.
   */
  lemma SentIsPassed(data: seq<byte>, steps: seq<Step>)
    requires 0 < |data| < TWO32 && Legal(Init(data), steps)
    ensures var (s, bufs) := (Exec(Init(data), steps), Passed(steps));
            && (s.w.WIdle? ==> s.returned == bufs && s.sent == Flatten(bufs))
            && (!s.w.WIdle? ==>
                  && bufs != [] && s.returned == bufs[..|bufs| - 1]
                  && Flatten(s.returned) <= s.sent && s.sent[|Flatten(s.returned)|..] <= bufs[|bufs| - 1])
  {
    hide Legal, Exec, Passed;
    SentRun(Init(data), steps, []);
    assert [] + Passed(steps) == Passed(steps);
    var s := Exec(Init(data), steps);
    if !s.w.WIdle? {
      assert s.sent[|Flatten(s.returned)|..] == s.w.buf[..s.w.cnt];
    }
  }

  // ---------- no schedule gets stuck, and passes with room make progress ----------

  /** The counter half of the invariant, which needs no hypothesis on sizes. */
  ghost predicate CountersFine(s: State) {
    && Counts(s.ring, |s.sent|, |s.received|)
    && (s.w.WLoop? ==> s.w.cnt <= |s.w.buf|)
    && (s.w.WCopy? ==> s.w.cnt + s.w.n <= |s.w.buf| && |s.sent| + s.w.n <= |s.received| + s.ring.Size())
    && (s.r.RCopy? ==> |s.received| + s.r.n <= |s.sent|)
  }

  lemma CountersStep(s: State, step: Step)
    requires CountersFine(s) && Enabled(s, step)
    ensures CountersFine(Apply(s, step))
  {
    hide Cell, Slot, Wrap32;
    CountsUsed(s.ring, |s.sent|, |s.received|);
    if step.PublishIn? {
      PublishedCounts(s.ring, |s.sent|, |s.received|, s.w.n);
    } else if step.PublishOut? {
      ConsumedCounts(s.ring, |s.sent|, |s.received|, s.r.n);
    }
  }

  lemma {:induction false} CountersRun(s: State, steps: seq<Step>)
    requires CountersFine(s) && Legal(s, steps)
    ensures CountersFine(Exec(s, steps))
    decreases |steps|
  {
    hide Enabled, Apply, CountersFine;
    if steps != [] {
      CountersStep(s, steps[0]);
      CountersRun(Apply(s, steps[0]), steps[1..]);
    }
  }

  /** Neither side ever waits for a step of the other: each always has one of its own. */
  lemma NeverStuck(data: seq<byte>, steps: seq<Step>)
    requires 0 < |data| < TWO32 && Legal(Init(data), steps)
    ensures var s := Exec(Init(data), steps);
            && (exists step :: WriterStep(step) && Enabled(s, step))
            && (exists step :: !WriterStep(step) && Enabled(s, step))
  {
    var s := Exec(Init(data), steps);
    CountersRun(Init(data), steps);
    WriterMoves(s);
    ReaderMoves(s);
  }

  predicate WriterStep(step: Step) {
    step.CallWrite? || step.LoadOut? || step.Store? || step.PublishIn? || step.ReturnWrite?
  }

  lemma WriterMoves(s: State)
    requires CountersFine(s)
    ensures exists step :: WriterStep(step) && Enabled(s, step)
  {
    match s.w
    case WIdle => assert Enabled(s, CallWrite([]));
    case WLoop(buf, cnt) =>
      assert Enabled(s, if cnt < |buf| then LoadOut else ReturnWrite);
    case WCopy(buf, cnt, n, done) =>
      if AllBelow(n, done) {
        assert Enabled(s, PublishIn);
      } else {
        var j: nat :| j < n && j !in done;
        assert Enabled(s, Store(j));
      }
  }

  lemma ReaderMoves(s: State)
    requires CountersFine(s)
    ensures exists step :: !WriterStep(step) && Enabled(s, step)
  {
    match s.r
    case RIdle => assert Enabled(s, CallRead(0));
    case RCopy(n, got) =>
      if AllBelow(n, got.Keys) {
        assert Enabled(s, PublishOut);
      } else {
        var j: nat :| j < n && j !in got.Keys;
        assert Enabled(s, Fetch(j));
      }
  }

  lemma {:induction false} RunConcat(s: State, a: seq<Step>, b: seq<Step>)
    requires Legal(s, a) && Legal(Exec(s, a), b)
    ensures Legal(s, a + b) && Exec(s, a + b) == Exec(Exec(s, a), b)
    decreases |a|
  {
    hide Enabled, Apply;
    if a == [] {
      assert a + b == b;
    } else {
      assert (a + b)[1..] == a[1..] + b;
      RunConcat(Apply(s, a[0]), a[1..], b);
    }
  }

  /** While a pass copies, only the set of stored bytes changes on the writer's side. */
  lemma {:induction false} CopyingRun(s: State, mid: seq<Step>)
    requires s.w.WCopy? && Legal(s, mid)
    requires forall i :: 0 <= i < |mid| ==> WriterStep(mid[i]) ==> mid[i].Store?
    ensures Exec(s, mid).w.WCopy? && Exec(s, mid).w == s.w.(done := Exec(s, mid).w.done)
    ensures Exec(s, mid).sent == s.sent
    decreases |mid|
  {
    hide Slot, Cell;
    if mid != [] {
      CopyingRun(Apply(s, mid[0]), mid[1..]);
    }
  }

  /**
    A pass of the write loop, whatever the reader does between the load and the publication: it
    publishes as much of the rest as was free at the load, so if anything was, `len - cnt` is
    strictly smaller afterwards.
   */
  lemma PassProgresses(data: seq<byte>, pre: seq<Step>, mid: seq<Step>)
    requires 0 < |data| < TWO32 && Legal(Init(data), pre)
    requires var s := Exec(Init(data), pre);
             && Enabled(s, LoadOut) && Legal(Apply(s, LoadOut), mid)
             && (forall i :: 0 <= i < |mid| ==> WriterStep(mid[i]) ==> mid[i].Store?)
             && Enabled(Exec(Apply(s, LoadOut), mid), PublishIn)
    ensures var s := Exec(Init(data), pre);
            var t := Apply(Exec(Apply(s, LoadOut), mid), PublishIn);
            var n := Min(|s.w.buf| - s.w.cnt, |data| - (|s.sent| - |s.received|));
            && t.w.WLoop? && t.w.buf == s.w.buf && t.w.cnt == s.w.cnt + n <= |t.w.buf|
            && |t.sent| == |s.sent| + n
            && (|s.sent| - |s.received| < |data| ==> s.w.cnt < t.w.cnt)
  {
    var s := Exec(Init(data), pre);
    CountersRun(Init(data), pre);
    RunGrows(Init(data), pre);
    CountsUsed(s.ring, |s.sent|, |s.received|);
    hide Legal, Exec, Slot, Cell, Counts;
    CopyingRun(Apply(s, LoadOut), mid);
  }

  /** While a read copies, only the set of fetched bytes changes on the reader's side. */
  lemma {:induction false} FetchingRun(s: State, mid: seq<Step>)
    requires s.r.RCopy? && Legal(s, mid)
    requires forall i :: 0 <= i < |mid| ==> !WriterStep(mid[i]) ==> mid[i].Fetch?
    ensures var t := Exec(s, mid);
            t.r.RCopy? && t.r.n == s.r.n && t.received == s.received
    decreases |mid|
  {
    hide Slot, Cell;
    if mid != [] {
      FetchingRun(Apply(s, mid[0]), mid[1..]);
    }
  }

  /**
    A read, whatever the writer does while it copies: what was received grows by exactly the smaller
    of the length asked for and the bytes unread when the counter was loaded.
   */
  lemma ReadTakes(data: seq<byte>, pre: seq<Step>, len: u32, mid: seq<Step>)
    requires 0 < |data| < TWO32 && Legal(Init(data), pre)
    requires var s := Exec(Init(data), pre);
             && Enabled(s, CallRead(len)) && Legal(Apply(s, CallRead(len)), mid)
             && (forall i :: 0 <= i < |mid| ==> !WriterStep(mid[i]) ==> mid[i].Fetch?)
             && Enabled(Exec(Apply(s, CallRead(len)), mid), PublishOut)
    ensures var s := Exec(Init(data), pre);
            var t := Apply(Exec(Apply(s, CallRead(len)), mid), PublishOut);
            s.received <= t.received && |t.received| == |s.received| + Min(len, |s.sent| - |s.received|)
  {
    var s := Exec(Init(data), pre);
    CountersRun(Init(data), pre);
    CountsUsed(s.ring, |s.sent|, |s.received|);
    hide Legal, Exec, Slot, Cell, Counts;
    FetchingRun(Apply(s, CallRead(len)), mid);
  }

  // ---------- the interleaving that breaks ----------

  ghost predicate Reaches(s: State, t: State) {
    exists steps :: Legal(s, steps) && Exec(s, steps) == t
  }

  lemma ReachesTrans(s: State, t: State, u: State)
    requires Reaches(s, t) && Reaches(t, u)
    ensures Reaches(s, u)
  {
    var a :| Legal(s, a) && Exec(s, a) == t;
    var b :| Legal(t, b) && Exec(t, b) == u;
    RunConcat(s, a, b);
  }

  lemma OneStep(s: State, step: Step)
    requires Enabled(s, step)
    ensures Reaches(s, Apply(s, step))
  {
    hide Enabled, Apply;
    var t := Apply(s, step);
    assert [step][1..] == [];
    assert Legal(t, []) && Exec(t, []) == t;
    assert Legal(s, [step]) && Exec(s, [step]) == t;
  }

  lemma NoStep(s: State)
    ensures Reaches(s, s)
  {
    assert Legal(s, []) && Exec(s, []) == s;
  }

  function Below(n: nat): (d: set<nat>)
    ensures forall j: nat :: j in d <==> j < n
  {
    if n == 0 then {} else Below(n - 1) + {n - 1}
  }

  /** Storing byte after byte is the two-part copy. */
  lemma CopyInGrows(data: seq<byte>, src: seq<byte>, off: nat, j: nat)
    requires off < |data| && j < |src| <= |data|
    ensures CopyIn(data, src[..j + 1], off) == CopyIn(data, src[..j], off)[Slot(|data|, off, j) := src[j]]
  {
    hide CopyIn;
    var a, b := CopyIn(data, src[..j + 1], off), CopyIn(data, src[..j], off)[Slot(|data|, off, j) := src[j]];
    forall k | 0 <= k < |data|
      ensures a[k] == b[k]
    {
      CopyInAt(data, src[..j + 1], off, k);
      CopyInAt(data, src[..j], off, k);
    }
  }

  /** What a cell holds after a copy, by its distance from the start of the copy. */
  lemma CopyInAt(data: seq<byte>, src: seq<byte>, off: nat, k: nat)
    requires off < |data| && |src| <= |data| && k < |data|
    ensures var i := if k >= off then k - off else k + |data| - off;
            CopyIn(data, src, off)[k] == if i < |src| then src[i] else data[k]
  {
    CopyInCells(data, src, off);
    hide CopyIn;
    var i := if k >= off then k - off else k + |data| - off;
    assert k == Slot(|data|, off, i);
  }

  /** `j` bytes into the copy of `buf`. */
  function Copying(s: State, buf: seq<byte>, j: nat): State
    requires s.ring.Valid() && j <= |buf| <= s.ring.Size()
  {
    s.(ring := s.ring.(data := CopyIn(s.ring.data, buf[..j], Cell(s.ring.inn, s.ring.Size()))),
       w := WCopy(buf, 0, |buf|, Below(j)))
  }

  lemma StoreNext(s: State, buf: seq<byte>, j: nat)
    requires s.ring.Valid() && j < |buf| <= s.ring.Size()
    ensures var t := Copying(s, buf, j);
            Enabled(t, Store(j)) && Apply(t, Store(j)) == Copying(s, buf, j + 1)
  {
    hide CopyIn, Cell, Slot;
    CopyInGrows(s.ring.data, buf, Cell(s.ring.inn, s.ring.Size()), j);
  }

  lemma {:induction false} StoresReach(s: State, buf: seq<byte>, j: nat)
    requires s.ring.Valid() && j <= |buf| <= s.ring.Size()
    ensures Reaches(Copying(s, buf, 0), Copying(s, buf, j))
    decreases j
  {
    hide Copying, Apply, Enabled, Reaches;
    if j == 0 {
      NoStep(Copying(s, buf, 0));
    } else {
      StoresReach(s, buf, j - 1);
      StoreNext(s, buf, j - 1);
      OneStep(Copying(s, buf, j - 1), Store(j - 1));
      ReachesTrans(Copying(s, buf, 0), Copying(s, buf, j - 1), Copying(s, buf, j));
    }
  }

  /** A write that fits, run without interference, is `Put`. */
  lemma WriteReaches(s: State, buf: seq<byte>)
    requires s.ring.Valid() && s.w.WIdle? && |buf| <= s.ring.Unused() && 0 < |buf| < TWO31
    ensures Reaches(s, s.(ring := s.ring.Put(buf).0, returned := s.returned + [buf], sent := s.sent + buf))
  {
    hide CopyIn, Cell, Slot, Below;
    var s1 := Apply(s, CallWrite(buf));
    var s2 := Apply(s1, LoadOut);
    OneStep(s, CallWrite(buf));
    OneStep(s1, LoadOut);
    ReachesTrans(s, s1, s2);
    CopyNothing(s.ring.data, Cell(s.ring.inn, s.ring.Size()));
    assert Below(0) == {} && buf[..0] == [];
    assert s2 == Copying(s, buf, 0);
    var s3 := Copying(s, buf, |buf|);
    StoresReach(s, buf, |buf|);
    ReachesTrans(s, s2, s3);
    var s4 := Apply(s3, PublishIn);
    OneStep(s3, PublishIn);
    ReachesTrans(s, s3, s4);
    var s5 := Apply(s4, ReturnWrite);
    OneStep(s4, ReturnWrite);
    ReachesTrans(s, s4, s5);
    assert buf[0..|buf|] == buf == buf[..|buf|];
  }

  /** Reading one byte without interference is `Take(1)`. */
  lemma ReadReaches(s: State)
    requires s.ring.Valid() && s.r.RIdle? && s.ring.Used() > 0
    ensures Reaches(s, s.(ring := s.ring.Take(1).0, received := s.received + s.ring.Take(1).1))
  {
    hide Cell, Slot;
    var s1 := Apply(s, CallRead(1));
    var s2 := Apply(s1, Fetch(0));
    OneStep(s, CallRead(1));
    OneStep(s1, Fetch(0));
    ReachesTrans(s, s1, s2);
    var s3 := Apply(s2, PublishOut);
    OneStep(s2, PublishOut);
    ReachesTrans(s, s2, s3);
    assert s3.received == s.received + s.ring.Take(1).1;
  }

  ghost predicate Drained(s: State, size: nat, k: nat) {
    s.ring == Ring(Wrap32(k), Wrap32(k), Zeros(size)) && s.w.WIdle? && s.r.RIdle?
    && s.sent == Zeros(k) && s.received == Zeros(k)
  }

  /** Writing and reading back zeros drives both counters to any value. */
  lemma {:induction false} DrainedReachable(size: nat, k: nat) returns (s: State)
    requires 0 < size < TWO32 && k < TWO32
    ensures Reaches(Init(Zeros(size)), s) && Drained(s, size, k)
    decreases k
  {
    hide Cell, CopyIn, CopyOut, Reaches, Slot, Apply, Enabled;
    if k == 0 {
      s := Init(Zeros(size));
      NoStep(s);
    } else {
      var t := DrainedReachable(size, k - 1);
      var t1 := t.(ring := t.ring.Put([0]).0, returned := t.returned + [[0]], sent := t.sent + [0]);
      ZeroCycle(size, k - 1);
      WriteReaches(t, [0]);
      s := t1.(ring := t1.ring.Take(1).0, received := t1.received + t1.ring.Take(1).1);
      ReadReaches(t1);
      ReachesTrans(t, t1, s);
      ReachesTrans(Init(Zeros(size)), t, s);
      assert Zeros(k - 1) + [0] == Zeros(k);
    }
  }

  lemma CopyZero(size: nat, off: nat)
    requires off < size
    ensures CopyIn(Zeros(size), [0], off) == Zeros(size) && CopyOut(Zeros(size), 1, off) == [0]
  {
    assert [0 as byte][..1] == [0];
  }

  lemma ZeroCycle(size: nat, c: nat)
    requires 0 < size < TWO32 && c + 1 < TWO32
    ensures var r := Ring(c, c, Zeros(size));
            && r.Put([0]) == (Ring(c + 1, c, Zeros(size)), 1)
            && Ring(c + 1, c, Zeros(size)).Take(1) == (Ring(c + 1, c + 1, Zeros(size)), [0])
  {
    hide Cell, CopyIn, CopyOut, Zeros;
    CopyZero(size, Cell(c, size));
    assert |Zeros(size)| == size;
    assert [0 as byte][..1] == [0];
  }

  /** Some interleaving committing `2^32 + 1` bytes hands the reader a byte that was never next. */
  lemma BrokenInterleaving(size: nat) returns (s: State)
    requires 1 < size < TWO31 && !Divides(size)
    ensures Reaches(Init(Zeros(size)), s) && Committed(s) == TWO32 + 1 && !(s.received <= s.sent)
  {
    var lost := TWO32 % size;
    var c := TWO32 - lost;
    StraddleCell(size);
    hide Cell, CopyIn, CopyOut, Zeros, Reaches, Slot, Apply, Enabled, Wrap32;
    var t := DrainedReachable(size, c);
    Wrap32Small(c);
    s := StraddleReaches(t, size, lost);
    ReachesTrans(Init(Zeros(size)), t, s);
    ZeroAt(lost);
    assert s.received[c] == 1 && s.sent[c] == 0;
  }

  lemma StraddleCell(size: nat)
    requires 0 < size < TWO32
    ensures 0 < TWO32 - TWO32 % size && Cell(TWO32 - TWO32 % size, size) == 0
  {
    assert TWO32 == TWO32 / size * size + TWO32 % size;
    ModUnique(TWO32 - TWO32 % size, TWO32 / size, 0, size);
  }

  /** From a ring drained just short of the wrap: fill up to the wrap, write one more byte, read one. */
  lemma StraddleReaches(t: State, size: nat, lost: nat) returns (s: State)
    requires 0 < lost < size < TWO31 && Cell(TWO32 - lost, size) == 0
    requires t.ring == Ring(TWO32 - lost, TWO32 - lost, Zeros(size)) && t.w.WIdle? && t.r.RIdle?
    ensures Reaches(t, s) && s.w.WIdle?
    ensures s.sent == t.sent + Zeros(lost) + [1] && s.received == t.received + [1]
  {
    hide Cell, CopyIn, CopyOut, Zeros, Reaches, Slot, Apply, Enabled;
    var c := TWO32 - lost;
    StraddlePuts(size, lost);
    var r1, r2 := Ring(0, c, Zeros(size)), Ring(1, c, CopyIn(Zeros(size), [1], 0));
    var t1 := t.(ring := r1, returned := t.returned + [Zeros(lost)], sent := t.sent + Zeros(lost));
    WriteReaches(t, Zeros(lost));
    var t2 := t1.(ring := r2, returned := t1.returned + [[1]], sent := t1.sent + [1]);
    WriteReaches(t1, [1]);
    s := t2.(ring := r2.Take(1).0, received := t2.received + [1]);
    ReadReaches(t2);
    ReachesTrans(t, t1, t2);
    ReachesTrans(t, t2, s);
  }

  lemma ZeroAt(n: nat)
    requires 0 < n
    ensures Zeros(n)[0] == 0
  {
  }

  ghost predicate AlwaysFifo(size: nat, budget: nat) {
    forall data: seq<byte>, s | |data| == size && Reaches(Init(data), s) && Committed(s) <= budget ::
      s.received <= s.sent
  }

  /**
    The exact condition for the protocol: every interleaving committing at most `budget` bytes
    delivers a prefix of what was sent if and only if the size divides 2^32 or the budget is at
    most 2^32.
   */
  lemma FifoExactly(size: nat, budget: nat)
    requires 0 < size < TWO31
    ensures AlwaysFifo(size, budget) <==> Divides(size) || budget <= TWO32
  {
    hide Inv, Apply, Enabled, Committed;
    if Divides(size) || budget <= TWO32 {
      forall data: seq<byte>, s | |data| == size && Reaches(Init(data), s) && Committed(s) <= budget
        ensures s.received <= s.sent
      {
        var steps :| Legal(Init(data), steps) && Exec(Init(data), steps) == s;
        InterleavingsAreFifo(data, steps);
      }
    } else {
      assert size != 1;
      var s := BrokenInterleaving(size);
      assert |Zeros(size)| == size;
    }
  }
}
