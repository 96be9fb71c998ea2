/** Whole runs of reads and writes: the ring against the bounded queue. */
module RingRuns {
  import opened Words
  import opened Ring
  import opened RingFifo

  datatype Op = Write(buf: seq<byte>) | Read(n: u32)

  datatype Result = Wrote(n: nat) | Got(bytes: seq<byte>)

  /** What the calls return, in order, when the code runs on the ring. */
  function RingRun(r: Ring, ops: seq<Op>): (out: seq<Result>)
    requires r.Valid()
    decreases |ops|
  {
    if ops == [] then [] else
    match ops[0]
    case Write(buf) => var (r', n) := r.Put(buf); [Wrote(n)] + RingRun(r', ops[1..])
    case Read(n) => var (r', s) := r.Take(n); [Got(s)] + RingRun(r', ops[1..])
  }

  /** What they return on a queue of `cap` bytes. */
  function QueueRun(cap: nat, q: seq<byte>, ops: seq<Op>): (out: seq<Result>)
    requires |q| <= cap
    decreases |ops|
  {
    if ops == [] then [] else
    match ops[0]
    case Write(buf) => var (q', n) := QPut(cap, q, buf); [Wrote(n)] + QueueRun(cap, q', ops[1..])
    case Read(n) => var (q', s) := QTake(q, n); [Got(s)] + QueueRun(cap, q', ops[1..])
  }

  lemma RunWrite(r: Ring, buf: seq<byte>, ops: seq<Op>)
    requires r.Valid()
    ensures RingRun(r, [Write(buf)] + ops) == [Wrote(r.Put(buf).1)] + RingRun(r.Put(buf).0, ops)
  {
    assert ([Write(buf)] + ops)[1..] == ops;
  }

  lemma RunRead(r: Ring, n: u32, ops: seq<Op>)
    requires r.Valid()
    ensures RingRun(r, [Read(n)] + ops) == [Got(r.Take(n).1)] + RingRun(r.Take(n).0, ops)
  {
    assert ([Read(n)] + ops)[1..] == ops;
  }

  /** Bytes the run tries to write. */
  function Offered(ops: seq<Op>): nat {
    if ops == [] then 0
    else (if ops[0].Write? then |ops[0].buf| else 0) + Offered(ops[1..])
  }

  /** Bytes the calls of a run report as written. */
  function Written(out: seq<Result>): nat {
    if out == [] then 0
    else (if out[0].Wrote? then out[0].n else 0) + Written(out[1..])
  }

  lemma WrittenStep(x: Result, out: seq<Result>)
    ensures Written([x] + out) == (if x.Wrote? then x.n else 0) + Written(out)
  {
    assert ([x] + out)[1..] == out;
  }

  /** No more is written than is offered; a full ring takes nothing. */
  lemma {:induction false} WrittenAtMost(r: Ring, ops: seq<Op>)
    requires r.Valid()
    ensures Written(RingRun(r, ops)) <= Offered(ops)
    decreases |ops|
  {
    hide Ring.Put, Ring.Take;
    if ops != [] {
      match ops[0]
      case Write(buf) =>
        WrittenStep(Wrote(r.Put(buf).1), RingRun(r.Put(buf).0, ops[1..]));
        WrittenAtMost(r.Put(buf).0, ops[1..]);
      case Read(n) =>
        WrittenStep(Got(r.Take(n).1), RingRun(r.Take(n).0, ops[1..]));
        WrittenAtMost(r.Take(n).0, ops[1..]);
    }
  }

  /** The 32-bit counters are the low words of how much was ever written and read. */
  ghost predicate Counts(r: Ring, written: nat, read: nat) {
    && r.Valid()
    && read <= written <= read + r.Size()
    && r.inn == Wrap32(written)
    && r.out == Wrap32(read)
  }

  lemma CountsUsed(r: Ring, written: nat, read: nat)
    requires Counts(r, written, read)
    ensures r.Used() == written - read
  {
  }

  /** Within the first 2^32 bytes, or with a size dividing 2^32, every call is safe. */
  lemma CallsSafe(r: Ring, written: nat, read: nat, k: nat)
    requires Counts(r, written, read) && k <= r.Used()
    requires Divides(r.Size()) || written <= TWO32
    ensures SafeToTake(r, k)
    ensures Divides(r.Size()) || written < TWO32 ==> SafeToPut(r)
  {
    CountsUsed(r, written, read);
    if !Divides(r.Size()) {
      if read < TWO32 {
        assert r.out == read;
      }
      if written < TWO32 {
        assert r.inn == written;
      }
    }
  }

  /** One read or write while no wrap is straddled: the counters stay true and the contents are the queue's. */
  lemma ReadStep(r: Ring, n: nat, written: nat, read: nat)
    requires Counts(r, written, read) && (Divides(r.Size()) || written <= TWO32)
    ensures var (r', s) := r.Take(n);
            && Counts(r', written, read + |s|)
            && s + r'.Contents() == r.Contents()
            && (n >= 1 ==> r'.Unused() > 0)
  {
    hide CopyIn, CopyOut, Cell;
    CountsUsed(r, written, read);
    var s := r.Take(n).1;
    CallsSafe(r, written, read, |s|);
    TakeRemoves(r, n);
    Add32Wraps(read, |s|);
  }

  lemma WriteStep(r: Ring, buf: seq<byte>, written: nat, read: nat)
    requires Counts(r, written, read) && (Divides(r.Size()) || written + r.Put(buf).1 <= TWO32)
    ensures var (r', n) := r.Put(buf);
            && Counts(r', written + n, read)
            && r'.Contents() == r.Contents() + buf[..n]
            && (buf != [] && r.Unused() > 0 ==> n >= 1)
  {
    hide CopyIn, CopyOut, Cell;
    CountsUsed(r, written, read);
    CallsSafe(r, written, read, 0);
    PutAppends(r, buf);
    Add32Wraps(written, r.Put(buf).1);
  }

  lemma RingHead(r: Ring, ops: seq<Op>)
    requires r.Valid() && ops != []
    ensures ops[0].Write? ==>
              var (r', n) := r.Put(ops[0].buf);
              RingRun(r, ops) == [Wrote(n)] + RingRun(r', ops[1..])
    ensures ops[0].Read? ==>
              var (r', s) := r.Take(ops[0].n);
              RingRun(r, ops) == [Got(s)] + RingRun(r', ops[1..])
  {
    hide Ring.Put, Ring.Take;
  }

  lemma QueueHead(cap: nat, q: seq<byte>, ops: seq<Op>)
    requires |q| <= cap && ops != []
    ensures ops[0].Write? ==>
              var (q', n) := QPut(cap, q, ops[0].buf);
              QueueRun(cap, q, ops) == [Wrote(n)] + QueueRun(cap, q', ops[1..])
    ensures ops[0].Read? ==>
              var (q', s) := QTake(q, ops[0].n);
              QueueRun(cap, q, ops) == [Got(s)] + QueueRun(cap, q', ops[1..])
  {
    hide QPut, QTake;
  }

  lemma {:induction false} RunMatches(r: Ring, ops: seq<Op>, written: nat, read: nat)
    requires Counts(r, written, read)
    requires Divides(r.Size()) || written + Written(RingRun(r, ops)) <= TWO32
    ensures RingRun(r, ops) == QueueRun(r.Size(), r.Contents(), ops)
    decreases |ops|
  {
    hide RingRun, QueueRun, Written, Counts, QPut, QTake, Ring.Put, Ring.Take, Ring.Contents;
    CountsValid(r, written, read);
    if ops == [] {
      EmptyRuns(r);
    } else if ops[0].Write? {
      var (r', n) := r.Put(ops[0].buf);
      RingHead(r, ops);
      QueueHead(r.Size(), r.Contents(), ops);
      WrittenStep(Wrote(n), RingRun(r', ops[1..]));
      WriteStep(r, ops[0].buf, written, read);
      PutIs(r, ops[0].buf);
      RunMatches(r', ops[1..], written + n, read);
    } else {
      var (r', s) := r.Take(ops[0].n);
      RingHead(r, ops);
      QueueHead(r.Size(), r.Contents(), ops);
      WrittenStep(Got(s), RingRun(r', ops[1..]));
      ReadStep(r, ops[0].n, written, read);
      TakenIs(r, ops[0].n);
      RunMatches(r', ops[1..], written, read + |s|);
    }
  }

  lemma EmptyRuns(r: Ring)
    requires r.Valid()
    ensures RingRun(r, []) == QueueRun(r.Size(), r.Contents(), []) == []
  {
  }

  lemma PutIs(r: Ring, buf: seq<byte>)
    requires r.Valid() && r.Put(buf).0.Contents() == r.Contents() + buf[..r.Put(buf).1]
    ensures (r.Put(buf).0.Contents(), r.Put(buf).1) == QPut(r.Size(), r.Contents(), buf)
  {
    hide CopyIn, CopyOut, Cell;
  }

  lemma CountsValid(r: Ring, written: nat, read: nat)
    requires Counts(r, written, read)
    ensures r.Valid()
  {
  }

  lemma TakenIs(r: Ring, n: nat)
    requires r.Valid() && r.Take(n).1 + r.Take(n).0.Contents() == r.Contents()
    ensures (r.Take(n).0.Contents(), r.Take(n).1) == QTake(r.Contents(), n)
  {
    hide CopyOut, Cell;
    var (r', s) := r.Take(n);
    assert (s + r'.Contents())[|s|..] == r'.Contents();
  }

  // ---------- the run that breaks ----------

  /** `k` times: write one zero byte and read it back. */
  function Idle(k: nat): seq<Op> {
    if k == 0 then [] else [Write([0]), Read(1)] + Idle(k - 1)
  }

  lemma {:induction false} OfferedConcat(a: seq<Op>, b: seq<Op>)
    ensures Offered(a + b) == Offered(a) + Offered(b)
  {
    if a == [] {
      assert a + b == b;
    } else {
      assert (a + b)[1..] == a[1..] + b;
      OfferedConcat(a[1..], b);
    }
  }

  lemma {:induction false} OfferedIdle(k: nat)
    ensures Offered(Idle(k)) == k
  {
    if k > 0 {
      OfferedConcat([Write([0]), Read(1)], Idle(k - 1));
      assert Offered([Write([0]), Read(1)]) == 1 by {
        assert [Write([0]), Read(1)][1..] == [Read(1)];
      }
      OfferedIdle(k - 1);
    }
  }

  function Zeros(n: nat): (s: seq<byte>)
    ensures |s| == n
  {
    seq(n, i => 0)
  }

  /** One idle cycle on a zeroed, drained ring moves both counters by one. */
  lemma IdleStep(size: nat, c: u32, ops: seq<Op>)
    requires 0 < size < TWO32
    ensures RingRun(Ring(c, c, Zeros(size)), [Write([0]), Read(1)] + ops) ==
            [Wrote(1), Got([0])] + RingRun(Ring(Add32(c, 1), Add32(c, 1), Zeros(size)), ops)
  {
    hide Cell, RingRun;
    var r := Ring(c, c, Zeros(size));
    assert [0 as byte][..1] == [0];
    var r1 := r.Put([0]).0;
    assert r1.data == Zeros(size);
    assert r1.Take(1).1 == [0];
    RunWrite(r, [0], [Read(1)] + ops);
    RunRead(r1, 1, ops);
    assert [Write([0])] + ([Read(1)] + ops) == [Write([0]), Read(1)] + ops;
  }

  lemma {:induction false} QueueIdleStep(cap: nat, ops: seq<Op>)
    requires 0 < cap
    ensures QueueRun(cap, [], [Write([0]), Read(1)] + ops) == [Wrote(1), Got([0])] + QueueRun(cap, [], ops)
  {
    var all := [Write([0]), Read(1)] + ops;
    assert all[1..][1..] == ops;
    assert [0 as byte][..1] == [0] && [] + [0 as byte] == [0];
    assert QueueRun(cap, [], all) == [Wrote(1)] + QueueRun(cap, [0], all[1..]);
    assert [0 as byte][1..] == [];
    assert QueueRun(cap, [0], all[1..]) == [Got([0])] + QueueRun(cap, [], ops);
  }

  lemma PrefixCancels<T>(p: seq<T>, a: seq<T>, b: seq<T>)
    requires p + a == p + b
    ensures a == b
  {
    assert a == (p + a)[|p|..] && b == (p + b)[|p|..];
  }

  /** If ring and queue part on `ops` with the counters at `c + k`, they part on `k` idle cycles first. */
  lemma {:induction false} IdleRun(size: nat, c: nat, k: nat, ops: seq<Op>)
    requires 0 < size < TWO32 && c + k < TWO32
    requires RingRun(Ring(c + k, c + k, Zeros(size)), ops) != QueueRun(size, [], ops)
    ensures RingRun(Ring(c, c, Zeros(size)), Idle(k) + ops) != QueueRun(size, [], Idle(k) + ops)
    decreases k
  {
    hide RingRun, QueueRun, Zeros;
    if k == 0 {
      assert Idle(k) + ops == ops;
    } else {
      IdleRun(size, c + 1, k - 1, ops);
      IdleOnce(size, c, Idle(k - 1) + ops);
      assert Idle(k) + ops == [Write([0]), Read(1)] + (Idle(k - 1) + ops);
    }
  }

  lemma IdleOnce(size: nat, c: u32, ops: seq<Op>)
    requires 0 < size < TWO32 && c + 1 < TWO32
    requires RingRun(Ring(c + 1, c + 1, Zeros(size)), ops) != QueueRun(size, [], ops)
    ensures RingRun(Ring(c, c, Zeros(size)), [Write([0]), Read(1)] + ops) !=
            QueueRun(size, [], [Write([0]), Read(1)] + ops)
  {
    IdleStep(size, c, ops);
    QueueIdleStep(size, ops);
    var a, b := RingRun(Ring(c + 1, c + 1, Zeros(size)), ops), QueueRun(size, [], ops);
    if [Wrote(1), Got([0])] + a == [Wrote(1), Got([0])] + b {
      PrefixCancels([Wrote(1), Got([0])], a, b);
    }
  }

  /** `2^32 % size` zeros, then a one, then a read of one byte. */
  function Straddle(size: nat): seq<Op>
    requires 0 < size
  {
    [Write(Zeros(TWO32 % size)), Write([1]), Read(1)]
  }

  /** With `2^32 % size` unread bytes at the wrap, the next byte lands on the oldest of them. */
  lemma StraddleOverwrites(size: nat)
    requires 0 < size < TWO32 && !Divides(size)
    ensures var c := TWO32 - TWO32 % size;
            RingRun(Ring(c, c, Zeros(size)), Straddle(size)) != QueueRun(size, [], Straddle(size))
  {
    var lost := TWO32 % size;
    var c := TWO32 - lost;
    assert Cell(c, size) == 0 by {
      assert TWO32 == TWO32 / size * size + lost;
      ModUnique(c, TWO32 / size, 0, size);
    }
    RingStraddle(size, lost);
    QueueStraddle(size, lost);
  }

  lemma RingStraddle(size: nat, lost: nat)
    requires 0 < lost < size < TWO32
    requires Cell(TWO32 - lost, size) == 0
    ensures RingRun(Ring(TWO32 - lost, TWO32 - lost, Zeros(size)), [Write(Zeros(lost)), Write([1]), Read(1)])
            == [Wrote(lost), Wrote(1), Got([1])]
  {
    hide Cell, CopyIn, CopyOut, RingRun, Zeros;
    var c := TWO32 - lost;
    var r1, r2 := Ring(0, c, Zeros(size)), Ring(1, c, CopyIn(Zeros(size), [1], 0));
    StraddlePuts(size, lost);
    RunWrite(Ring(c, c, Zeros(size)), Zeros(lost), [Write([1]), Read(1)]);
    RunWrite(r1, [1], [Read(1)]);
    RunRead(r2, 1, []);
    EmptyRun(r2.Take(1).0);
    assert [Write(Zeros(lost))] + [Write([1]), Read(1)] == [Write(Zeros(lost)), Write([1]), Read(1)];
    assert [Write([1])] + [Read(1)] == [Write([1]), Read(1)];
    assert [Read(1)] + [] == [Read(1)];
  }

  lemma EmptyRun(r: Ring)
    requires r.Valid()
    ensures RingRun(r, []) == []
  {
  }

  lemma CopyZeros(size: nat, n: nat)
    requires n <= size && 0 < size
    ensures CopyIn(Zeros(size), Zeros(n), 0) == Zeros(size) && Zeros(n)[..n] == Zeros(n)
  {
  }

  lemma CopyOne(size: nat)
    requires 0 < size
    ensures CopyOut(CopyIn(Zeros(size), [1], 0), 1, 0) == [1] && [1 as byte][..1] == [1]
  {
    var d := CopyIn(Zeros(size), [1], 0);
    assert d[0] == 1;
    assert CopyOut(d, 1, 0)[0] == d[Slot(size, 0, 0)];
  }

  lemma CellOfZero(size: nat)
    requires 0 < size
    ensures Cell(0, size) == 0
  {
  }

  /** The zeros end exactly at the wrap; the one goes to cell 0, which is also the cell of `out`. */
  lemma StraddlePuts(size: nat, lost: nat)
    requires 0 < lost < size < TWO32
    requires Cell(TWO32 - lost, size) == 0
    ensures var c := TWO32 - lost;
            var r1, r2 := Ring(0, c, Zeros(size)), Ring(1, c, CopyIn(Zeros(size), [1], 0));
            && Ring(c, c, Zeros(size)).Put(Zeros(lost)) == (r1, lost)
            && r1.Put([1]) == (r2, 1)
            && r2.Take(1).1 == [1]
  {
    hide Cell, CopyIn, CopyOut, Zeros;
    CopyZeros(size, lost);
    CopyOne(size);
    CellOfZero(size);
  }

  lemma QueueStraddle(size: nat, lost: nat)
    requires 0 < lost < size
    ensures QueueRun(size, [], [Write(Zeros(lost)), Write([1]), Read(1)]) == [Wrote(lost), Wrote(1), Got([0])]
  {
    var ops := [Write(Zeros(lost)), Write([1]), Read(1)];
    assert ops[1..] == [Write([1]), Read(1)] && ops[1..][1..] == [Read(1)] && ops[1..][1..][1..] == [];
    var q1 := QPut(size, [], Zeros(lost)).0;
    assert q1 == Zeros(lost);
    assert [1 as byte][..1] == [1];
    var q2 := QPut(size, q1, [1]).0;
    assert q2 == Zeros(lost) + [1];
    assert QTake(q2, 1).1 == [0];
    assert QueueRun(size, QTake(q2, 1).0, []) == [];
    assert QueueRun(size, q2, [Read(1)]) == [Got([0])];
    assert QueueRun(size, q1, [Write([1]), Read(1)]) == [Wrote(1)] + QueueRun(size, q2, [Read(1)]);
  }

  /** Every run that writes at most `budget` bytes is a queue run, whatever the memory held at start. */
  ghost predicate AlwaysQueue(size: nat, budget: nat)
    requires 0 < size < TWO32
  {
    forall data: seq<byte>, ops | |data| == size && Written(RingRun(Cleared(data), ops)) <= budget ::
      RingRun(Cleared(data), ops) == QueueRun(size, [], ops)
  }

  /**
    The exact condition: a cleared ring behaves as a queue over every run that writes at
    most `budget` bytes if and only if its size divides 2^32 or the budget is at most 2^32.
   */
  lemma QueueExactly(size: nat, budget: nat)
    requires 0 < size < TWO32
    ensures AlwaysQueue(size, budget) <==> Divides(size) || budget <= TWO32
  {
    hide RingRun, QueueRun, Idle, Offered, Written, CopyOut;
    if Divides(size) || budget <= TWO32 {
      forall data: seq<byte>, ops | |data| == size && Written(RingRun(Cleared(data), ops)) <= budget
        ensures RingRun(Cleared(data), ops) == QueueRun(size, [], ops)
      {
        RunMatches(Cleared(data), ops, 0, 0);
        assert Cleared(data).Contents() == [];
      }
    } else {
      var c := TWO32 - TWO32 % size;
      var ops := Idle(c) + Straddle(size);
      StraddleOverwrites(size);
      IdleRun(size, 0, c, Straddle(size));
      OfferedConcat(Idle(c), Straddle(size));
      OfferedIdle(c);
      OfferedStraddle(size);
      WrittenAtMost(Cleared(Zeros(size)), ops);
      assert RingRun(Cleared(Zeros(size)), ops) != QueueRun(size, [], ops);
    }
  }

  lemma OfferedStraddle(size: nat)
    requires 0 < size
    ensures Offered(Straddle(size)) == TWO32 % size + 1
  {
    var ops := Straddle(size);
    assert ops[1..] == [Write([1]), Read(1)] && ops[1..][1..] == [Read(1)] && ops[1..][1..][1..] == [];
    assert Offered([Read(1)]) == 0;
  }
}
