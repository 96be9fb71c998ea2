/** Calls in sequence on rings in memory: the blocking write, and two rings side by side. */
module RingSession {
  import opened Words
  import opened Ring
  import opened RingFifo
  import opened RingRuns
  import opened RingBuffer

  /**
    `ring_buffer_write` spins until every byte is in.  `reader` is what the other side asks for
    before each pass; the loop is followed for as long as that list lasts.  At every moment the
    bytes in the ring before plus the part of `buf` already written are the bytes the reader got
    plus the bytes in the ring now, so `buf` goes in once, in order and in one piece.
   */
  method RingBufferWrite(mem: array<byte>, b: nat, buf: seq<byte>, reader: seq<u32>,
                         ghost written: nat, ghost read: nat)
    returns (cnt: nat, got: seq<byte>)
    requires RingIn(mem[..], b) && Counts(RingAt(mem[..], b), written, read)
    requires Divides(RingAt(mem[..], b).Size()) || written + |buf| <= TWO32
    modifies mem
    ensures RingIn(mem[..], b) && cnt <= |buf|
    ensures Counts(RingAt(mem[..], b), written + cnt, read + |got|)
    ensures RingAt(old(mem[..]), b).Contents() + buf[..cnt] == got + RingAt(mem[..], b).Contents()
    ensures (forall i :: 0 <= i < |reader| ==> reader[i] >= 1) ==> cnt >= Min(|buf|, |reader|)
    ensures ChangedOnly(old(mem[..]), mem[..], b, Extent(old(mem[..]), b))
  {
    hide Word, CopyIn, CopyOut, Cell, Ring.Put, Ring.Take, Ring.Contents, Wrap32;
    cnt, got := 0, [];
    ghost var r0 := RingAt(mem[..], b);
    var i := 0;
    while cnt < |buf| && i < |reader|
      invariant i <= |reader| && cnt <= |buf|
      invariant RingIn(mem[..], b) && RingAt(mem[..], b).Size() == r0.Size()
      invariant Counts(RingAt(mem[..], b), written + cnt, read + |got|)
      invariant r0.Contents() + buf[..cnt] == got + RingAt(mem[..], b).Contents()
      invariant (forall k :: 0 <= k < i ==> reader[k] >= 1) ==> cnt >= Min(|buf|, i)
      invariant ChangedOnly(old(mem[..]), mem[..], b, HEADER + r0.Size())
      decreases |reader| - i
    {
      ghost var c := RingAt(mem[..], b).Contents();
      var s, o := Pass(mem, b, reader[i], buf[cnt..], written + cnt, read + |got|);
      Compose(r0.Contents(), buf[..cnt], got, c, buf[cnt..][..o], s, RingAt(mem[..], b).Contents());
      assert buf[..cnt] + buf[cnt..][..o] == buf[..cnt + o];
      cnt, got, i := cnt + o, got + s, i + 1;
    }
  }

  /** One pass: the reader takes what it wants, then the writer stores what fits. */
  method Pass(mem: array<byte>, b: nat, ask: u32, buf: seq<byte>, ghost written: nat, ghost read: nat)
    returns (s: seq<byte>, o: nat)
    requires RingIn(mem[..], b) && Counts(RingAt(mem[..], b), written, read)
    requires Divides(RingAt(mem[..], b).Size()) || written + |buf| <= TWO32
    modifies mem
    ensures RingIn(mem[..], b) && RingAt(mem[..], b).Size() == RingAt(old(mem[..]), b).Size()
    ensures o <= |buf| && Counts(RingAt(mem[..], b), written + o, read + |s|)
    ensures RingAt(old(mem[..]), b).Contents() + buf[..o] == s + RingAt(mem[..], b).Contents()
    ensures ask >= 1 && buf != [] ==> o >= 1
    ensures ChangedOnly(old(mem[..]), mem[..], b, Extent(old(mem[..]), b))
  {
    hide Word, CopyIn, CopyOut, Cell, Counts, Ring.Put, Ring.Take, Ring.Contents;
    PassStep(RingAt(mem[..], b), ask, buf, written, read);
    s := KfifoOut(mem, b, ask);
    o := KfifoIn(mem, b, buf);
  }

  lemma PassStep(r: Ring, ask: nat, buf: seq<byte>, written: nat, read: nat)
    requires Counts(r, written, read) && (Divides(r.Size()) || written + |buf| <= TWO32)
    ensures var (r1, s) := r.Take(ask);
            var (r2, o) := r1.Put(buf);
            && Counts(r2, written + o, read + |s|)
            && r.Contents() + buf[..o] == s + r2.Contents()
            && (ask >= 1 && buf != [] ==> o >= 1)
  {
    hide CopyIn, CopyOut, Cell, Ring.Put, Ring.Take, Ring.Contents, Wrap32;
    var (r1, s) := r.Take(ask);
    ReadStep(r, ask, written, read);
    WriteStep(r1, buf, written, read + |s|);
    var o := r1.Put(buf).1;
    assert (s + r1.Contents()) + buf[..o] == s + (r1.Contents() + buf[..o]);
  }

  /** Two conservation equations in sequence make one. */
  lemma Compose<T>(c0: seq<T>, b1: seq<T>, got: seq<T>, c1: seq<T>, b2: seq<T>, s: seq<T>, c2: seq<T>)
    requires c0 + b1 == got + c1 && c1 + b2 == s + c2
    ensures c0 + (b1 + b2) == (got + s) + c2
  {
    assert c0 + (b1 + b2) == (c0 + b1) + b2;
    assert (got + c1) + b2 == got + (c1 + b2);
    assert got + (s + c2) == (got + s) + c2;
  }

  // ---------- two rings in one region ----------

  datatype Side = Rx | Tx

  /** The calls of one side, in order. */
  function OpsOf(side: Side, calls: seq<(Side, Op)>): seq<Op> {
    if calls == [] then []
    else (if calls[0].0 == side then [calls[0].1] else []) + OpsOf(side, calls[1..])
  }

  lemma NoOps()
    ensures OpsOf(Rx, []) == [] && OpsOf(Tx, []) == []
  {
  }

  /** The next call belongs to one side and is invisible to the other. */
  lemma OpsOfStep(calls: seq<(Side, Op)>, k: nat)
    requires k < |calls|
    ensures forall side :: OpsOf(side, calls[k..]) ==
              if calls[k].0 == side then [calls[k].1] + OpsOf(side, calls[k + 1..]) else OpsOf(side, calls[k + 1..])
  {
    assert calls[k..][1..] == calls[k + 1..];
  }

  lemma Regroup<T>(a: seq<T>, x: T, b: seq<T>)
    ensures a + ([x] + b) == (a + [x]) + b
  {
  }

  /** One call on the ring at `b`; the result and the rest of the run are those of the value-level run. */
  method Call(mem: array<byte>, b: nat, op: Op, ghost rest: seq<Op>) returns (res: Result)
    requires RingIn(mem[..], b)
    modifies mem
    ensures RingIn(mem[..], b) && RingAt(mem[..], b).Size() == RingAt(old(mem[..]), b).Size()
    ensures ChangedOnly(old(mem[..]), mem[..], b, Extent(old(mem[..]), b))
    ensures RingRun(RingAt(old(mem[..]), b), [op] + rest) == [res] + RingRun(RingAt(mem[..], b), rest)
  {
    hide Word, CopyIn, CopyOut, Cell, RingRun;
    ghost var r := RingAt(mem[..], b);
    match op
    case Write(buf) =>
      var n := KfifoIn(mem, b, buf);
      RunWrite(r, buf, rest);
      res := Wrote(n);
    case Read(n) =>
      var s := KfifoOut(mem, b, n);
      RunRead(r, n, rest);
      res := Got(s);
  }

  /** The rings at `rx` and `tx` do not share a byte. */
  predicate Apart(m: seq<byte>, rx: nat, tx: nat)
    requires RingIn(m, rx) && RingIn(m, tx)
  {
    rx + Extent(m, rx) <= tx || tx + Extent(m, tx) <= rx
  }

  /** Memory changed at most in two ranges. */
  ghost predicate ChangedOnlyTwo(m: seq<byte>, m': seq<byte>, a: nat, n: nat, b: nat, k: nat) {
    && |m'| == |m|
    && forall i :: 0 <= i < |m| && !(a <= i < a + n) && !(b <= i < b + k) ==> m'[i] == m[i]
  }

  lemma NothingChanged(m: seq<byte>, a: nat, n: nat, b: nat, k: nat)
    ensures ChangedOnlyTwo(m, m, a, n, b, k)
  {
  }

  lemma ChangedChain(m: seq<byte>, m': seq<byte>, m'': seq<byte>, a: nat, n: nat, b: nat, k: nat)
    requires ChangedOnlyTwo(m, m', a, n, b, k)
    requires ChangedOnly(m', m'', a, n) || ChangedOnly(m', m'', b, k)
    ensures ChangedOnlyTwo(m, m'', a, n, b, k)
  {
  }

  /**
    Any mix of calls on two rings that lie apart: each ring answers exactly as if it were alone,
    and nothing outside the two rings is written.
   */
  method PairRun(mem: array<byte>, rx: nat, tx: nat, calls: seq<(Side, Op)>)
    returns (rxOut: seq<Result>, txOut: seq<Result>)
    requires RingIn(mem[..], rx) && RingIn(mem[..], tx) && Apart(mem[..], rx, tx)
    modifies mem
    ensures rxOut == RingRun(RingAt(old(mem[..]), rx), OpsOf(Rx, calls))
    ensures txOut == RingRun(RingAt(old(mem[..]), tx), OpsOf(Tx, calls))
    ensures RingIn(mem[..], rx) && RingIn(mem[..], tx) && Apart(mem[..], rx, tx)
    ensures ChangedOnlyTwo(old(mem[..]), mem[..],
                           rx, Extent(old(mem[..]), rx), tx, Extent(old(mem[..]), tx))
  {
    hide Word, RingRun, OpsOf, ChangedOnly, ChangedOnlyTwo, Ring.Valid, RingAt;
    rxOut, txOut := [], [];
    ghost var nrx, ntx := Extent(mem[..], rx), Extent(mem[..], tx);
    assert ChangedOnlyTwo(mem[..], mem[..], rx, nrx, tx, ntx) by { NothingChanged(mem[..], rx, nrx, tx, ntx); }
    for k := 0 to |calls|
      invariant RingIn(mem[..], rx) && Extent(mem[..], rx) == nrx
      invariant RingIn(mem[..], tx) && Extent(mem[..], tx) == ntx
      invariant RingRun(RingAt(old(mem[..]), rx), OpsOf(Rx, calls))
                == rxOut + RingRun(RingAt(mem[..], rx), OpsOf(Rx, calls[k..]))
      invariant RingRun(RingAt(old(mem[..]), tx), OpsOf(Tx, calls))
                == txOut + RingRun(RingAt(mem[..], tx), OpsOf(Tx, calls[k..]))
      invariant ChangedOnlyTwo(old(mem[..]), mem[..], rx, nrx, tx, ntx)
    {
      ghost var m, rest := mem[..], calls[k + 1..];
      OpsOfStep(calls, k);
      var (side, op) := calls[k];
      if side == Rx {
        var res := Call(mem, rx, op, OpsOf(Rx, rest));
        RingUntouched(m, mem[..], tx, rx, nrx);
        Regroup(rxOut, res, RingRun(RingAt(mem[..], rx), OpsOf(Rx, rest)));
        rxOut := rxOut + [res];
      } else {
        var res := Call(mem, tx, op, OpsOf(Tx, rest));
        RingUntouched(m, mem[..], rx, tx, ntx);
        Regroup(txOut, res, RingRun(RingAt(mem[..], tx), OpsOf(Tx, rest)));
        txOut := txOut + [res];
      }
      ChangedChain(old(mem[..]), m, mem[..], rx, nrx, tx, ntx);
    }
    assert calls[|calls|..] == [] && OpsOf(Rx, []) == [] && OpsOf(Tx, []) == [] by { NoOps(); }
    EmptyRun(RingAt(mem[..], rx));
    EmptyRun(RingAt(mem[..], tx));
  }

  /** Bytes of each half that the call may touch: with a negative length, the header alone. */
  function Span(len: i32): nat {
    if len < 0 then HEADER else len
  }

  /**
    `ring_buffer_pair_init`: a NULL address, or a half no longer than a header, is refused and memory
    left alone.  The comparison is unsigned, so a negative length passes and is stored as a huge one.
   */
  method RingBufferPairInit(mem: array<byte>, rx: Option<nat>, tx: Option<nat>, len: i32) returns (ret: int)
    requires rx.Some? && tx.Some? && !(0 <= len <= HEADER) ==>
               && rx.value + Span(len) <= mem.Length && tx.value + Span(len) <= mem.Length
               && (rx.value + Span(len) <= tx.value || tx.value + Span(len) <= rx.value)
    modifies mem
    ensures ret == if rx.None? || tx.None? || 0 <= len <= HEADER then -1 else 0
    ensures ret != 0 ==> mem[..] == old(mem[..])
    ensures ret == 0 ==> ChangedOnlyTwo(old(mem[..]), mem[..], rx.value, Span(len), tx.value, Span(len))
    ensures ret == 0 && len < 0 ==>
              && Word(mem[..], rx.value) == Word(mem[..], rx.value + 4) == 0
              && Word(mem[..], tx.value) == Word(mem[..], tx.value + 4) == 0
              && Word(mem[..], rx.value + 8) == Word(mem[..], tx.value + 8) == Wrap32(len - HEADER)
    ensures ret == 0 && len > 0 ==>
              && RingIn(mem[..], rx.value) && RingIn(mem[..], tx.value) && Apart(mem[..], rx.value, tx.value)
              && Extent(mem[..], rx.value) == len && Extent(mem[..], tx.value) == len
              && RingAt(mem[..], rx.value) == Cleared(old(mem[..])[rx.value + HEADER..rx.value + len])
              && RingAt(mem[..], tx.value) == Cleared(old(mem[..])[tx.value + HEADER..tx.value + len])
  {
    hide Word, RingIn, RingAt, Wrap32, ChangedOnlyTwo;
    if rx.None? || tx.None? || 0 <= len <= HEADER {
      return -1;
    }
    if len < 0 {
      InitHuge(mem, rx.value, tx.value, len);
    } else {
      InitHalves(mem, rx.value, tx.value, len);
    }
    return 0;
  }

  method InitHalves(mem: array<byte>, rx: nat, tx: nat, len: i32)
    requires HEADER < len
    requires rx + len <= mem.Length && tx + len <= mem.Length && (rx + len <= tx || tx + len <= rx)
    modifies mem
    ensures RingIn(mem[..], rx) && RingIn(mem[..], tx) && Apart(mem[..], rx, tx)
    ensures Extent(mem[..], rx) == len && Extent(mem[..], tx) == len
    ensures RingAt(mem[..], rx) == Cleared(old(mem[..])[rx + HEADER..rx + len])
    ensures RingAt(mem[..], tx) == Cleared(old(mem[..])[tx + HEADER..tx + len])
    ensures ChangedOnlyTwo(old(mem[..]), mem[..], rx, len, tx, len)
  {
    hide Word, Ring.Valid, Wrap32;
    Wrap32Small(len - HEADER);
    ghost var m0 := mem[..];
    RingInit(mem, rx, Wrap32(len - HEADER));
    ghost var m1 := mem[..];
    RingInit(mem, tx, Wrap32(len - HEADER));
    PairFrame(m0, m1, mem[..], rx, tx, len);
  }

  method InitHuge(mem: array<byte>, rx: nat, tx: nat, len: i32)
    requires len < 0
    requires rx + HEADER <= mem.Length && tx + HEADER <= mem.Length && (rx + HEADER <= tx || tx + HEADER <= rx)
    modifies mem
    ensures Word(mem[..], rx) == Word(mem[..], rx + 4) == 0 && Word(mem[..], rx + 8) == Wrap32(len - HEADER)
    ensures Word(mem[..], tx) == Word(mem[..], tx + 4) == 0 && Word(mem[..], tx + 8) == Wrap32(len - HEADER)
    ensures ChangedOnlyTwo(old(mem[..]), mem[..], rx, HEADER, tx, HEADER)
  {
    hide Word, RingIn, RingAt, Wrap32;
    RingInit(mem, rx, Wrap32(len - HEADER));
    ghost var m1 := mem[..];
    RingInit(mem, tx, Wrap32(len - HEADER));
    HeaderKept(m1, mem[..], rx, tx);
  }

  lemma HeaderKept(m: seq<byte>, m': seq<byte>, b: nat, at: nat)
    requires b + HEADER <= |m| && ChangedOnly(m, m', at, 12) && (b + HEADER <= at || at + HEADER <= b)
    ensures Word(m', b) == Word(m, b) && Word(m', b + 4) == Word(m, b + 4) && Word(m', b + 8) == Word(m, b + 8)
  {
    assert m'[b..b + 4] == m[b..b + 4];
    assert m'[b + 4..b + 8] == m[b + 4..b + 8];
    assert m'[b + 8..b + 12] == m[b + 8..b + 12];
  }

  lemma PairFrame(m0: seq<byte>, m1: seq<byte>, m2: seq<byte>, rx: nat, tx: nat, len: nat)
    requires HEADER < len && rx + len <= |m0| && tx + len <= |m0| && (rx + len <= tx || tx + len <= rx)
    requires ChangedOnly(m0, m1, rx, 12) && ChangedOnly(m1, m2, tx, 12)
    requires RingIn(m1, rx) && Extent(m1, rx) == len
    ensures RingIn(m2, rx) && RingAt(m2, rx) == RingAt(m1, rx)
    ensures m1[tx + HEADER..tx + len] == m0[tx + HEADER..tx + len]
    ensures ChangedOnlyTwo(m0, m2, rx, len, tx, len)
  {
    RingUntouched(m1, m2, rx, tx, 12);
  }
}
