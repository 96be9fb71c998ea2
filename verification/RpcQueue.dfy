/** The circular request queue of the RPC worker pool, updated in place under a mutex. */
module RpcQueue {
  import opened Words

  /** The requests between `head` and `tail`, going round the end if need be. */
  function Between<T>(q: seq<T>, head: nat, tail: nat): (s: seq<T>)
    requires head < |q| && tail < |q|
    ensures |s| == if head <= tail then tail - head else |q| - head + tail
  {
    if head <= tail then q[head..tail] else q[head..] + q[..tail]
  }

  /** The index after `i`, written as the code does for `head` and `tail`. */
  function Next(i: nat, size: nat): (k: nat)
    requires i < size
    ensures k < size
  {
    if i + 1 == size then 0 else i + 1
  }

  predicate Full(head: nat, tail: nat, size: nat)
    requires 0 < size
  {
    (tail + 1) % size == head
  }

  /** One cell is sacrificed: full means `size - 1` requests. */
  lemma FullMeans<T>(q: seq<T>, head: nat, tail: nat)
    requires head < |q| && tail < |q|
    ensures Full(head, tail, |q|) <==> |Between(q, head, tail)| == |q| - 1
    ensures Full(head, tail, |q|) <==> Next(tail, |q|) == head
  {
    if tail + 1 == |q| {
      assert (tail + 1) % |q| == 0;
    } else {
      assert (tail + 1) % |q| == tail + 1;
    }
  }

  lemma BetweenPush<T>(q: seq<T>, head: nat, tail: nat, x: T)
    requires head < |q| && tail < |q| && Next(tail, |q|) != head
    ensures Between(q[tail := x], head, Next(tail, |q|)) == Between(q, head, tail) + [x]
  {
  }

  lemma BetweenPop<T>(q: seq<T>, head: nat, tail: nat)
    requires head < |q| && tail < |q| && head != tail
    ensures Between(q, head, tail) == [q[head]] + Between(q, Next(head, |q|), tail)
  {
  }

  class Queue<T(0)> {
    const q: array<T>
    var head: nat
    var tail: nat

    ghost predicate Valid()
      reads this
    {
      head < q.Length && tail < q.Length
    }

    ghost function Contents(): seq<T>
      requires Valid()
      reads this, q
    {
      Between(q[..], head, tail)
    }

    /** `rq_init` */
    constructor (size: nat)
      requires size > 0
      ensures Valid() && fresh(q) && q.Length == size && Contents() == []
    {
      q := new T[size];
      head, tail := 0, 0;
    }

    /** `__enqueue`: refused exactly when `size - 1` requests are queued, else appended. */
    method Enqueue(req: T) returns (err: int)
      requires Valid()
      modifies this, q
      ensures Valid()
      ensures err == if |old(Contents())| == q.Length - 1 then -1 else 0
      ensures Contents() == if err == 0 then old(Contents()) + [req] else old(Contents())
    {
      FullMeans(q[..], head, tail);
      hide Full;
      if Full(head, tail, q.Length) {
        return -1;
      }
      BetweenPush(q[..], head, tail, req);
      ghost var q0 := q[..];
      q[tail] := req;
      assert q[..] == q0[tail := req];
      tail := tail + 1;
      if tail == q.Length {
        tail := 0;
      }
      return 0;
    }

    /** `__dequeue`: no request exactly when the queue is empty, else the oldest one. */
    method Dequeue() returns (err: int, req: Option<T>)
      requires Valid()
      modifies this
      ensures Valid()
      ensures (err, req) == if old(Contents()) == [] then (-1, None) else (0, Some(old(Contents())[0]))
      ensures Contents() == if err == 0 then old(Contents())[1..] else old(Contents())
    {
      if head == tail {
        return -1, None;
      }
      BetweenPop(q[..], head, tail);
      req := Some(q[head]);
      head := head + 1;
      if head == q.Length {
        head := 0;
      }
      err := 0;
    }
  }
}
