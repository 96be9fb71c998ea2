/**
  The ring in shared memory: a 16-byte header (`in`, `out`, `len`, `esize`) followed by the data,
  updated in place.  Every operation is tied to its value-level meaning in module Ring.
 */
module RingBuffer {
  import opened Words
  import opened Memory
  import opened Ring

  const HEADER: nat := 16

  function Word(m: seq<byte>, at: nat): u32
    requires at + 4 <= |m|
  {
    FromLe32(m[at..at + 4])
  }

  /** There is a ring at `b`: header and data fit in the memory and the counters are consistent. */
  predicate RingIn(m: seq<byte>, b: nat) {
    && b + HEADER <= |m|
    && b + HEADER + Word(m, b + 8) <= |m|
    && RingAt(m, b).Valid()
  }

  function RingAt(m: seq<byte>, b: nat): Ring
    requires b + HEADER <= |m| && b + HEADER + Word(m, b + 8) <= |m|
  {
    Ring(Word(m, b), Word(m, b + 4), m[b + HEADER..b + HEADER + Word(m, b + 8)])
  }

  /** Bytes the ring at `b` occupies. */
  function Extent(m: seq<byte>, b: nat): nat
    requires RingIn(m, b)
  {
    HEADER + RingAt(m, b).Size()
  }

  /** Memory changed at most in the `n` bytes from `b`. */
  ghost predicate ChangedOnly(m: seq<byte>, m': seq<byte>, b: nat, n: nat) {
    && |m'| == |m|
    && forall i :: 0 <= i < |m| && !(b <= i < b + n) ==> m'[i] == m[i]
  }

  // ---------- memory lemmas ----------

  /** Storing a word stores that word and leaves any word elsewhere alone. */
  lemma StoreWord(m: seq<byte>, at: nat, x: u32)
    requires at + 4 <= |m|
    ensures Word(Splice(m, at, Le32(x)), at) == x
    ensures forall p | 0 <= p && p + 4 <= |m| && (p + 4 <= at || at + 4 <= p) ::
              Word(Splice(m, at, Le32(x)), p) == Word(m, p)
  {
    var m' := Splice(m, at, Le32(x));
    assert m'[at..at + 4] == Le32(x);
    Le32RoundTrip(x);
    forall p | 0 <= p && p + 4 <= |m| && (p + 4 <= at || at + 4 <= p)
      ensures Word(m', p) == Word(m, p)
    {
      assert m'[p..p + 4] == m[p..p + 4];
    }
  }

  lemma WordSame(m: seq<byte>, m': seq<byte>, at: nat)
    requires at + 4 <= |m| == |m'| && m[at..at + 4] == m'[at..at + 4]
    ensures Word(m, at) == Word(m', at)
  {
  }

  /** A change confined elsewhere leaves the ring at `b` as it was. */
  lemma RingUntouched(m: seq<byte>, m': seq<byte>, b: nat, at: nat, n: nat)
    requires RingIn(m, b) && ChangedOnly(m, m', at, n)
    requires b + Extent(m, b) <= at || at + n <= b
    ensures RingIn(m', b) && RingAt(m', b) == RingAt(m, b)
    ensures m'[b..b + Extent(m, b)] == m[b..b + Extent(m, b)]
  {
    assert m'[b..b + 4] == m[b..b + 4];
    assert m'[b + 4..b + 8] == m[b + 4..b + 8];
    assert m'[b + 8..b + 12] == m[b + 8..b + 12];
    var size := Word(m, b + 8);
    assert m'[b + HEADER..b + HEADER + size] == m[b + HEADER..b + HEADER + size];
  }

  /** Storing a new `in` (or `out`) changes that counter of the ring and nothing else of it. */
  lemma StoreIn(m: seq<byte>, b: nat, x: u32)
    requires b + HEADER <= |m| && b + HEADER + Word(m, b + 8) <= |m|
    ensures var m' := Splice(m, b, Le32(x));
            && b + HEADER + Word(m', b + 8) <= |m'|
            && RingAt(m', b) == RingAt(m, b).(inn := x)
            && Word(m', b) == x && Word(m', b + 4) == Word(m, b + 4)
  {
    StoreWord(m, b, x);
    var m' := Splice(m, b, Le32(x));
    var size := Word(m, b + 8);
    assert m'[b + HEADER..b + HEADER + size] == m[b + HEADER..b + HEADER + size];
  }

  lemma StoreOut(m: seq<byte>, b: nat, x: u32)
    requires b + HEADER <= |m| && b + HEADER + Word(m, b + 8) <= |m|
    ensures var m' := Splice(m, b + 4, Le32(x));
            && b + HEADER + Word(m', b + 8) <= |m'|
            && RingAt(m', b) == RingAt(m, b).(out := x)
            && Word(m', b) == Word(m, b) && Word(m', b + 4) == x
  {
    StoreWord(m, b + 4, x);
    var m' := Splice(m, b + 4, Le32(x));
    var size := Word(m, b + 8);
    assert m'[b + HEADER..b + HEADER + size] == m[b + HEADER..b + HEADER + size];
  }

  /** Copying into the data area changes the data of the ring and nothing else of it. */
  lemma StoreData(m: seq<byte>, b: nat, off: nat, src: seq<byte>)
    requires b + HEADER <= |m| && b + HEADER + Word(m, b + 8) <= |m|
    requires off + |src| <= Word(m, b + 8)
    ensures var m' := Splice(m, b + HEADER + off, src);
            && b + HEADER + Word(m', b + 8) <= |m'|
            && RingAt(m', b) == RingAt(m, b).(data := Splice(RingAt(m, b).data, off, src))
  {
    var m' := Splice(m, b + HEADER + off, src);
    WordSame(m, m', b);
    WordSame(m, m', b + 4);
    WordSame(m, m', b + 8);
    var size := Word(m, b + 8);
    assert m'[b + HEADER..b + HEADER + size] == Splice(m[b + HEADER..b + HEADER + size], off, src);
  }

  lemma SliceOfSlice<T>(m: seq<T>, lo: nat, hi: nat, a: nat, b: nat)
    requires lo <= hi <= |m| && a <= b <= hi - lo
    ensures m[lo..hi][a..b] == m[lo + a..lo + b]
  {
    var l, r := m[lo..hi][a..b], m[lo + a..lo + b];
    assert |l| == |r| && forall i :: 0 <= i < |l| ==> l[i] == r[i];
  }

  /** The two-part copy, on the ring in memory. */
  lemma StoreCopy(m: seq<byte>, b: nat, src: seq<byte>, off: nat)
    requires b + HEADER <= |m| && b + HEADER + Word(m, b + 8) <= |m|
    requires off < Word(m, b + 8) && |src| <= Word(m, b + 8)
    ensures var size := Word(m, b + 8);
            var l := Min(|src|, size - off);
            var m' := Splice(Splice(m, b + HEADER + off, src[..l]), b + HEADER, src[l..]);
            && b + HEADER + Word(m', b + 8) <= |m'|
            && RingAt(m', b) == RingAt(m, b).(data := CopyIn(RingAt(m, b).data, src, off))
            && ChangedOnly(m, m', b + HEADER, size)
  {
    hide Word, Splice;
    var size := Word(m, b + 8);
    var l := Min(|src|, size - off);
    StoreData(m, b, off, src[..l]);
    StoreData(Splice(m, b + HEADER + off, src[..l]), b, 0, src[l..]);
  }

  /** The two-part read, on the ring in memory. */
  lemma LoadCopy(m: seq<byte>, b: nat, len: nat, off: nat)
    requires b + HEADER <= |m| && b + HEADER + Word(m, b + 8) <= |m|
    requires off < Word(m, b + 8) && len <= Word(m, b + 8)
    ensures var l := Min(len, Word(m, b + 8) - off);
            m[b + HEADER + off..b + HEADER + off + l] + m[b + HEADER..b + HEADER + (len - l)]
            == CopyOut(RingAt(m, b).data, len, off)
  {
    hide Word;
    var l := Min(len, Word(m, b + 8) - off);
    var data := RingAt(m, b).data;
    SliceOfSlice(m, b + HEADER, b + HEADER + |data|, off, off + l);
    SliceOfSlice(m, b + HEADER, b + HEADER + |data|, 0, len - l);
  }

  // ---------- the operations ----------

  method LoadWord(mem: array<byte>, at: nat) returns (x: u32)
    requires at + 4 <= mem.Length
    ensures x == Word(mem[..], at)
  {
    x := FromLe32(mem[at..at + 4]);
    assert mem[..][at..at + 4] == mem[at..at + 4];
  }

  /**
    `ring_buffer_init`: counters and length are set, the data stays.  With a length that fits the
    memory there is then a cleared ring.
   */
  method RingInit(mem: array<byte>, b: nat, len: u32)
    requires b + HEADER <= mem.Length
    modifies mem
    ensures Word(mem[..], b) == 0 && Word(mem[..], b + 4) == 0 && Word(mem[..], b + 8) == len
    ensures ChangedOnly(old(mem[..]), mem[..], b, 12)
    ensures 0 < len && b + HEADER + len <= mem.Length ==>
              && RingIn(mem[..], b)
              && RingAt(mem[..], b) == Cleared(old(mem[..])[b + HEADER..b + HEADER + len])
  {
    hide Word;
    ghost var m0 := mem[..];
    Memcpy(mem, b, Le32(0));
    ghost var m1 := mem[..];
    StoreWord(m0, b, 0);
    Memcpy(mem, b + 4, Le32(0));
    ghost var m2 := mem[..];
    StoreWord(m1, b + 4, 0);
    Memcpy(mem, b + 8, Le32(len));
    StoreWord(m2, b + 8, len);
    if b + HEADER + len <= mem.Length {
      assert mem[..][b + HEADER..b + HEADER + len] == m0[b + HEADER..b + HEADER + len];
    }
  }

  /** `kfifo_copy_in`: two memcpys, the second from the start of the area. */
  method KfifoCopyIn(mem: array<byte>, b: nat, src: seq<byte>, off: u32)
    requires RingIn(mem[..], b) && |src| <= RingAt(mem[..], b).Size()
    modifies mem
    ensures b + HEADER + Word(mem[..], b + 8) <= mem.Length
    ensures var r := RingAt(old(mem[..]), b);
            RingAt(mem[..], b) == r.(data := CopyIn(r.data, src, Cell(off, r.Size())))
    ensures ChangedOnly(old(mem[..]), mem[..], b + HEADER, RingAt(old(mem[..]), b).Size())
  {
    hide Word, Cell, CopyIn, Splice;
    var size := LoadWord(mem, b + 8);
    var o := Cell(off, size);
    var l := Min(|src|, size - o);
    StoreCopy(mem[..], b, src, o);
    Memcpy(mem, b + HEADER + o, src[..l]);
    Memcpy(mem, b + HEADER, src[l..]);
  }

  /** `__kfifo_in` */
  method KfifoIn(mem: array<byte>, b: nat, buf: seq<byte>) returns (n: nat)
    requires RingIn(mem[..], b)
    modifies mem
    ensures RingIn(mem[..], b)
    ensures (RingAt(mem[..], b), n) == RingAt(old(mem[..]), b).Put(buf)
    ensures Word(mem[..], b) == Add32(Word(old(mem[..]), b), n) && Word(mem[..], b + 4) == Word(old(mem[..]), b + 4)
    ensures ChangedOnly(old(mem[..]), mem[..], b, Extent(old(mem[..]), b))
  {
    hide Word, Cell, CopyIn;
    ghost var m0 := mem[..];
    var inn := LoadWord(mem, b);
    var out := LoadWord(mem, b + 4);
    var size := LoadWord(mem, b + 8);
    n := Sub32(size, Sub32(inn, out));
    if |buf| <= n {
      n := |buf|;
    }
    KfifoCopyIn(mem, b, buf[..n], inn);
    ghost var m1 := mem[..];
    Memcpy(mem, b, Le32(Add32(inn, n)));
    StoreIn(m1, b, Add32(inn, n));
  }

  /** `kfifo_copy_out` */
  method KfifoCopyOut(mem: array<byte>, b: nat, len: u32, off: u32) returns (s: seq<byte>)
    requires RingIn(mem[..], b) && len <= RingAt(mem[..], b).Size()
    ensures s == CopyOut(RingAt(mem[..], b).data, len, Cell(off, RingAt(mem[..], b).Size()))
  {
    hide Word, Cell, CopyOut;
    var size := LoadWord(mem, b + 8);
    var o := Cell(off, size);
    var l := Min(len, size - o);
    LoadCopy(mem[..], b, len, o);
    s := mem[..][b + HEADER + o..b + HEADER + o + l] + mem[..][b + HEADER..b + HEADER + (len - l)];
  }

  /** `__kfifo_out_peek`: only reads. */
  method KfifoOutPeek(mem: array<byte>, b: nat, len: u32) returns (s: seq<byte>)
    requires RingIn(mem[..], b)
    ensures s == RingAt(mem[..], b).Peek(len)
  {
    hide Word, Cell, CopyOut;
    var inn := LoadWord(mem, b);
    var out := LoadWord(mem, b + 4);
    var l := Sub32(inn, out);
    if len <= l {
      l := len;
    }
    s := KfifoCopyOut(mem, b, l, out);
  }

  /** `__kfifo_out` */
  method KfifoOut(mem: array<byte>, b: nat, len: u32) returns (s: seq<byte>)
    requires RingIn(mem[..], b)
    modifies mem
    ensures RingIn(mem[..], b)
    ensures (RingAt(mem[..], b), s) == RingAt(old(mem[..]), b).Take(len)
    ensures Word(mem[..], b + 4) == Add32(Word(old(mem[..]), b + 4), |s|) && Word(mem[..], b) == Word(old(mem[..]), b)
    ensures ChangedOnly(old(mem[..]), mem[..], b, 8)
  {
    hide Word, Cell, CopyOut, Splice;
    s := KfifoOutPeek(mem, b, len);
    var out := LoadWord(mem, b + 4);
    ghost var m0 := mem[..];
    Memcpy(mem, b + 4, Le32(Add32(out, |s|)));
    StoreOut(m0, b, Add32(out, |s|));
  }

  /** `ring_buffer_read`: a negative `len` converts to a huge unsigned request, so it reads everything. */
  method RingBufferRead(mem: array<byte>, b: nat, len: i32) returns (s: seq<byte>)
    requires RingIn(mem[..], b)
    modifies mem
    ensures RingIn(mem[..], b)
    ensures (RingAt(mem[..], b), s) == RingAt(old(mem[..]), b).Take(Wrap32(len))
    ensures ChangedOnly(old(mem[..]), mem[..], b, 8)
  {
    s := KfifoOut(mem, b, Wrap32(len));
  }
}
