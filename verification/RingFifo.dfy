/**
  When is the ring a bounded byte queue?  Cell numbers are taken as `counter % size` after the
  counter has already been reduced modulo 2^32, so at the counter wrap the cells jump by
  `2^32 % size`.  The module gives the exact condition, call by call and over whole runs.
 */
module RingFifo {
  import opened Words
  import opened Ring

  // ---------- the bounded queue ----------

  function QPut(cap: nat, q: seq<byte>, buf: seq<byte>): (r: (seq<byte>, nat))
    requires |q| <= cap
    ensures |r.0| <= cap && r.1 <= |buf|
  {
    var n := Min(|buf|, cap - |q|);
    (q + buf[..n], n)
  }

  function QTake(q: seq<byte>, n: nat): (r: (seq<byte>, seq<byte>))
    ensures r.1 + r.0 == q
  {
    var k := Min(n, |q|);
    (q[k..], q[..k])
  }

  // ---------- one call ----------

  ghost predicate Divides(size: nat)
    requires 0 < size
  {
    TWO32 % size == 0
  }

  /** No counter wrap lies between the oldest unread byte and the next free cell. */
  ghost predicate SafeToPut(r: Ring)
    requires r.Valid()
  {
    Divides(r.Size()) || r.Used() == 0 || r.out <= r.inn
  }

  /** Dropping `k` bytes does not carry `out` over the wrap while bytes remain. */
  ghost predicate SafeToTake(r: Ring, k: nat)
    requires r.Valid() && k <= r.Used()
  {
    Divides(r.Size()) || k == r.Used() || r.out + k < TWO32
  }

  lemma ModEqualGap(x: nat, d: nat, m: nat)
    requires 0 < m && (x + d) % m == x % m
    ensures d % m == 0
  {
    var p, q := x / m, (x + d) / m;
    assert x == p * m + x % m && x + d == q * m + (x + d) % m;
    assert d == (q - p) * m;
    if q < p {
      MulGap(q, p, m);
    }
    ModUnique(d, q - p, 0, m);
  }

  /** Losing 2^32 from a counter keeps its cell exactly when the size divides 2^32. */
  lemma WrapMoves(size: nat, c: u32)
    requires 0 < size
    ensures Cell(c + TWO32, size) == Cell(c, size) <==> Divides(size)
  {
    if Divides(size) {
      WrapHarmless(size, c + TWO32);
    } else if Cell(c + TWO32, size) == Cell(c, size) {
      ModEqualGap(c, TWO32, size);
    }
  }

  /** The cell after the last unread byte is the one `in` selects, exactly when it is safe to put. */
  lemma TailCell(r: Ring)
    requires r.Valid()
    ensures SafeToPut(r) <==> Slot(r.Size(), Cell(r.out, r.Size()), r.Used()) == Cell(r.inn, r.Size())
  {
    SlotIsMod(r.Size(), r.out, r.Used());
    if r.out > r.inn {
      WrapMoves(r.Size(), r.inn);
    }
  }

  /** Copying in right behind the unread bytes appends to what a full read returns. */
  lemma CopyAppends(data: seq<byte>, src: seq<byte>, off: nat, used: nat)
    requires off < |data| && used + |src| <= |data|
    ensures CopyOut(CopyIn(data, src, Slot(|data|, off, used)), used + |src|, off) ==
            CopyOut(data, used, off) + src
  {
    hide CopyIn, CopyOut, Cell;
    var size, tail := |data|, Slot(|data|, off, used);
    var data' := CopyIn(data, src, tail);
    CopyInCells(data, src, tail);
    forall j | 0 <= j < used + |src|
      ensures CopyOut(data', used + |src|, off)[j] == (CopyOut(data, used, off) + src)[j]
    {
      if j < used {
        assert Slot(size, off, j) == Slot(size, tail, size - used + j);
      } else {
        assert Slot(size, off, j) == Slot(size, tail, j - used);
      }
    }
  }

  lemma CopyNothing(data: seq<byte>, off: nat)
    requires off < |data|
    ensures CopyIn(data, [], off) == data
  {
  }

  /** A safe write appends the longest prefix that fits and disturbs nothing unread. */
  lemma PutAppends(r: Ring, buf: seq<byte>)
    requires r.Valid() && (SafeToPut(r) || r.Put(buf).1 == 0)
    ensures r.Put(buf).0.Contents() == r.Contents() + buf[..r.Put(buf).1]
  {
    hide CopyIn, CopyOut, Cell;
    var n := r.Put(buf).1;
    if n == 0 {
      CopyNothing(r.data, Cell(r.inn, r.Size()));
    } else {
      TailCell(r);
      CopyAppends(r.data, buf[..n], Cell(r.out, r.Size()), r.Used());
    }
  }

  lemma CopyMisses(data: seq<byte>, b: byte, cell: nat, other: nat)
    requires cell < |data| && other < |data| && cell != other
    ensures CopyIn(data, [b], cell)[other] == data[other]
  {
  }

  /** An unsafe write that stores anything at all breaks the queue for some byte. */
  lemma UnsafePutBreaks(r: Ring) returns (b: byte)
    requires r.Valid() && !SafeToPut(r) && r.Unused() > 0
    ensures r.Put([b]).0.Contents() != r.Contents() + [b]
  {
    hide CopyIn, CopyOut, Cell;
    var right, wrong := Slot(r.Size(), Cell(r.out, r.Size()), r.Used()), Cell(r.inn, r.Size());
    TailCell(r);
    b := if r.data[right] == 0 then 1 else 0;
    var r' := r.Put([b]).0;
    assert [b][..1] == [b];
    CopyMisses(r.data, b, wrong, right);
    assert r'.Contents()[r.Used()] == r.data[right];
  }

  /** Exactly the safe or full rings take every buffer as a queue would. */
  lemma PutIsQueueExactly(r: Ring)
    requires r.Valid()
    ensures (forall buf :: r.Put(buf).0.Contents() == r.Contents() + buf[..r.Put(buf).1])
            <==> (SafeToPut(r) || r.Unused() == 0)
  {
    if SafeToPut(r) || r.Unused() == 0 {
      forall buf ensures r.Put(buf).0.Contents() == r.Contents() + buf[..r.Put(buf).1] {
        PutAppends(r, buf);
      }
    } else {
      var b := UnsafePutBreaks(r);
      assert r.Put([b]).1 == 1 && [b][..1] == [b];
    }
  }

  // ---------- reading ----------

  /** The cell `out` selects after a read is the cell of the oldest byte left, exactly when safe. */
  lemma HeadCell(r: Ring, k: nat)
    requires r.Valid() && k < r.Used()
    ensures SafeToTake(r, k) <==> Cell(Add32(r.out, k), r.Size()) == Slot(r.Size(), Cell(r.out, r.Size()), k)
  {
    SlotIsMod(r.Size(), r.out, k);
    if r.out + k >= TWO32 {
      WrapMoves(r.Size(), Add32(r.out, k));
    }
  }

  lemma CopyDrops(data: seq<byte>, used: nat, off: nat, k: nat)
    requires off < |data| && k < used <= |data|
    ensures CopyOut(data, used - k, Slot(|data|, off, k)) == CopyOut(data, used, off)[k..]
  {
  }

  /** A read hands out the oldest bytes; if safe, exactly the others are left. */
  lemma TakeRemoves(r: Ring, n: nat)
    requires r.Valid()
    ensures r.Take(n).1 == r.Contents()[..|r.Take(n).1|]
    ensures SafeToTake(r, |r.Take(n).1|) ==> r.Take(n).0.Contents() == r.Contents()[|r.Take(n).1|..]
  {
    var k := |r.Take(n).1|;
    if SafeToTake(r, k) {
      if k < r.Used() {
        HeadCell(r, k);
        CopyDrops(r.data, r.Used(), Cell(r.out, r.Size()), k);
      }
    }
  }

  /** For given counters, every data area is read as a queue exactly when the read is safe. */
  lemma TakeIsQueueExactly(inn: u32, out: u32, size: nat, n: nat)
    requires 0 < size < TWO32 && Sub32(inn, out) <= size
    ensures (forall data: seq<byte> | |data| == size ::
              var r := Ring(inn, out, data);
              r.Take(n).0.Contents() == r.Contents()[|r.Take(n).1|..])
            <==> SafeToTake(Ring(inn, out, seq(size, i => 0)), Min(n, Sub32(inn, out)))
  {
    var k := Min(n, Sub32(inn, out));
    var zero: seq<byte> := seq(size, i => 0);
    var z := Ring(inn, out, zero);
    if SafeToTake(z, k) {
      forall data: seq<byte> | |data| == size
        ensures Ring(inn, out, data).Take(n).0.Contents() ==
                Ring(inn, out, data).Contents()[|Ring(inn, out, data).Take(n).1|..]
      {
        TakeRemoves(Ring(inn, out, data), n);
      }
    } else {
      var right, wrong := Slot(size, Cell(out, size), k), Cell(Add32(out, k), size);
      var r := Ring(inn, out, zero[right := 1]);
      HeadCell(r, k);
      assert r.Take(n).0.Contents()[0] == r.data[wrong] == 0;
      assert r.Contents()[k..][0] == r.data[right] == 1;
    }
  }
}
