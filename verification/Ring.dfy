/** The debug ring as a value: free-running 32-bit counters over a byte area of any size. */
module Ring {
  import opened Words

  datatype Ring = Ring(inn: u32, out: u32, data: seq<byte>) {

    function Size(): nat {
      |data|
    }

    /** Bytes waiting to be read, computed as the code does: a 32-bit difference. */
    function Used(): nat {
      Sub32(inn, out)
    }

    predicate Valid() {
      0 < Size() < TWO32 && Used() <= Size()
    }

    function Unused(): nat
      requires Valid()
    {
      Size() - Used()
    }

    /** What a reader asking for everything would be handed. */
    function Contents(): (s: seq<byte>)
      requires Valid()
      ensures |s| == Used()
    {
      CopyOut(data, Used(), Cell(out, Size()))
    }

    /** `__kfifo_in`: the new ring and how many bytes of `buf` went in. */
    function Put(buf: seq<byte>): (r: (Ring, nat))
      requires Valid()
      ensures r.1 == Min(|buf|, Unused())
      ensures r.0.Valid() && r.0.Size() == Size() && r.0.Used() == Used() + r.1
    {
      var n := Min(|buf|, Unused());
      (Ring(Add32(inn, n), out, CopyIn(data, buf[..n], Cell(inn, Size()))), n)
    }

    /** `__kfifo_out_peek` */
    function Peek(n: nat): (s: seq<byte>)
      requires Valid()
      ensures |s| == Min(n, Used())
    {
      CopyOut(data, Min(n, Used()), Cell(out, Size()))
    }

    /** `__kfifo_out` */
    function Take(n: nat): (r: (Ring, seq<byte>))
      requires Valid()
      ensures r.0.Valid() && r.0.Size() == Size() && r.0.Used() == Used() - |r.1|
    {
      var s := Peek(n);
      (Ring(inn, Add32(out, |s|), data), s)
    }
  }

  /** A cleared ring: the counters are reset, the data area keeps whatever it held. */
  function Cleared(data: seq<byte>): Ring {
    Ring(0, 0, data)
  }

  // ---------- the two-part copies ----------

  /** The cell a counter selects. */
  function Cell(c: nat, size: nat): (k: nat)
    requires 0 < size
    ensures k < size
  {
    c % size
  }

  /** The cell `j` steps after `off`, going round the end once. */
  function Slot(size: nat, off: nat, j: nat): (k: nat)
    requires off < size && j <= size
    ensures k < size
  {
    if off + j < size then off + j else off + j - size
  }

  /** `kfifo_copy_in`: up to the end of the area, then from its start. */
  function CopyIn(data: seq<byte>, src: seq<byte>, off: nat): (d: seq<byte>)
    requires off < |data| && |src| <= |data|
    ensures |d| == |data|
  {
    var l := Min(|src|, |data| - off);
    Splice(Splice(data, off, src[..l]), 0, src[l..])
  }

  /** `kfifo_copy_out` */
  function CopyOut(data: seq<byte>, len: nat, off: nat): (s: seq<byte>)
    requires off < |data| && len <= |data|
    ensures |s| == len
    ensures forall j :: 0 <= j < len ==> s[j] == data[Slot(|data|, off, j)]
  {
    var l := Min(len, |data| - off);
    data[off..off + l] + data[..len - l]
  }

  /** The copy fills exactly the `|src|` cells from `off` on, in order, and nothing else. */
  lemma CopyInCells(data: seq<byte>, src: seq<byte>, off: nat)
    requires off < |data| && |src| <= |data|
    ensures forall j :: 0 <= j < |src| ==> CopyIn(data, src, off)[Slot(|data|, off, j)] == src[j]
    ensures forall j :: |src| <= j < |data| ==>
              CopyIn(data, src, off)[Slot(|data|, off, j)] == data[Slot(|data|, off, j)]
  {
    forall j | 0 <= j < |data|
      ensures CopyIn(data, src, off)[Slot(|data|, off, j)] ==
              if j < |src| then src[j] else data[Slot(|data|, off, j)]
    {
      CopyInCell(data, src, off, j);
    }
  }

  lemma CopyInCell(data: seq<byte>, src: seq<byte>, off: nat, j: nat)
    requires off < |data| && |src| <= |data| && j < |data|
    ensures CopyIn(data, src, off)[Slot(|data|, off, j)] ==
            if j < |src| then src[j] else data[Slot(|data|, off, j)]
  {
    hide Splice;
    var l := Min(|src|, |data| - off);
    var first := Splice(data, off, src[..l]);
    var k := Slot(|data|, off, j);
    assert CopyIn(data, src, off)[k] == if k < |src| - l then src[l..][k] else first[k];
    assert first[k] == if off <= k < off + l then src[..l][k - off] else data[k];
  }

  // ---------- arithmetic of the offsets ----------

  /** Walking `j` cells from the cell of `x` lands on the cell of `x + j`. */
  lemma SlotIsMod(size: nat, x: nat, j: nat)
    requires 0 < size && j <= size
    ensures Slot(size, Cell(x, size), j) == Cell(x + j, size)
  {
    var q := x / size;
    assert x == q * size + x % size;
    if x % size + j < size {
      ModUnique(x + j, q, x % size + j, size);
    } else {
      assert (q + 1) * size == q * size + size;
      ModUnique(x + j, q + 1, x % size + j - size, size);
    }
  }

  /** Positions less than one lap apart use different cells. */
  lemma CellsDiffer(size: nat, a: nat, b: nat)
    requires a < b < a + size
    ensures Cell(a, size) != Cell(b, size)
  {
    SlotIsMod(size, a, b - a);
  }

  /** Reducing a counter modulo 2^32 first is harmless when the size divides 2^32. */
  lemma WrapHarmless(size: nat, x: nat)
    requires 0 < size && TWO32 % size == 0
    ensures Cell(Wrap32(x), size) == Cell(x, size)
  {
    var q := x / TWO32;
    var m := TWO32 / size;
    assert x == q * TWO32 + Wrap32(x);
    assert TWO32 == m * size;
    var w := Wrap32(x);
    var v := w / size;
    assert w == v * size + w % size;
    assert (q * m + v) * size == q * (m * size) + v * size;
    ModUnique(x, q * m + v, w % size, size);
  }
}
