/** Page-aligned mapping and unmapping of device memory. */
module PageMap {
  import opened Words
  import opened Errno
  import opened Masks

  const WORD: nat := 64

  /** Conversion to a 64-bit word. */
  function Wrap64(x: int): (w: nat)
    ensures w < Pow2(WORD)
  {
    x % Pow2(WORD)
  }

  lemma Wrap64Small(x: nat)
    requires x < Pow2(WORD)
    ensures Wrap64(x) == x
  {
    hide Pow2;
  }

  /** Start and length handed to mmap for `size` bytes at `pa`, computed with masks on 64-bit words. */
  function AlignedStart(pa: nat, page: nat): nat
    requires 0 < page <= Pow2(WORD)
  {
    And(pa, Not(WORD, page - 1))
  }

  function AlignedSize(pa: nat, size: nat, page: nat): nat
    requires 0 < page <= Pow2(WORD)
  {
    var offset: int := pa - AlignedStart(pa, page);
    And(Wrap64(offset + size + page - 1), Not(WORD, page - 1))
  }

  /** `[lo, hi)` is made of whole pages and contains `size` bytes at `pa`. */
  predicate Covers(lo: nat, hi: nat, pa: nat, size: nat, page: nat)
    requires 0 < page
  {
    IsMultiple(lo, page) && IsMultiple(hi, page) && lo <= pa && pa + size <= hi
  }

  /** The one sum of the computation that could leave 64 bits does not. */
  predicate NoOverflow(pa: nat, size: nat, page: nat)
    requires 0 < page
  {
    pa - Floor(pa, page) + size + page - 1 < Pow2(WORD)
  }

  /** What the masks compute, for a power-of-two page size. */
  lemma AlignedMeans(pa: nat, size: nat, k: nat)
    requires k <= WORD && pa < Pow2(WORD)
    ensures Pow2(k) <= Pow2(WORD)
    ensures AlignedStart(pa, Pow2(k)) == Floor(pa, Pow2(k))
    ensures var y := pa - Floor(pa, Pow2(k)) + size + Pow2(k) - 1;
            AlignedSize(pa, size, Pow2(k)) == Floor(Wrap64(y), Pow2(k))
  {
    hide And, Pow2, Floor, Wrap64, Not, IsMultiple;
    Pow2Mono(k, WORD);
    MaskRoundsDown(pa, k, WORD);
    MaskRoundsDown(Wrap64(pa - Floor(pa, Pow2(k)) + size + Pow2(k) - 1), k, WORD);
  }

  /** `[lo, lo + len)` is the smallest run of whole pages containing `size` bytes at `pa`. */
  ghost predicate Smallest(lo: nat, len: nat, pa: nat, size: nat, page: nat)
    requires 0 < page
  {
    && Covers(lo, lo + len, pa, size, page)
    && forall a: nat, b: nat :: Covers(a, b, pa, size, page) ==> a <= lo && lo + len <= b
  }

  lemma SmallestWhenExact(pa: nat, size: nat, page: nat)
    requires 0 < page && 0 < size
    ensures Smallest(Floor(pa, page), Floor(pa - Floor(pa, page) + size + page - 1, page), pa, size, page)
  {
    hide Floor, IsMultiple;
    var lo := Floor(pa, page);
    var len := Floor(pa - lo + size + page - 1, page);
    FloorMeans(pa, page);
    FloorMeans(pa - lo + size + page - 1, page);
    SumOfMultiples(lo, len, page);
    forall a: nat, b: nat | Covers(a, b, pa, size, page)
      ensures a <= lo && lo + len <= b
    {
      if a > lo {
        MultipleGap(lo, a, page);
      }
      if b < lo + len {
        MultipleGap(b, lo + len, page);
      }
    }
  }

  lemma Wrap64Loses(y: nat)
    requires y >= Pow2(WORD)
    ensures Wrap64(y) <= y - Pow2(WORD)
  {
    hide Pow2;
    var m := Pow2(WORD);
    assert y == y / m * m + y % m;
    MulAtLeast(m, y / m);
  }

  /**
    For every address, size and power-of-two page: start and length handed to mmap are the smallest
    run of whole pages covering the range if and only if the sum rounded for the length fits 64 bits.
   */
  lemma SmallestCoverExactly(pa: nat, size: nat, k: nat)
    requires k <= WORD && 0 < size && pa < Pow2(WORD)
    ensures Pow2(k) <= Pow2(WORD)
    ensures Smallest(AlignedStart(pa, Pow2(k)), AlignedSize(pa, size, Pow2(k)), pa, size, Pow2(k))
            <==> NoOverflow(pa, size, Pow2(k))
  {
    hide And, Pow2, Floor, Wrap64, Not, AlignedStart, AlignedSize, IsMultiple;
    AlignedMeans(pa, size, k);
    var page := Pow2(k);
    var y := pa - Floor(pa, page) + size + page - 1;
    FloorMeans(pa, page);
    if NoOverflow(pa, size, page) {
      Wrap64Small(y);
      SmallestWhenExact(pa, size, page);
    } else {
      Wrap64Loses(y);
      FloorMeans(Wrap64(y), page);
    }
  }

  /** A registered remoteproc memory: physical and device address, size, and where it was mapped. */
  datatype Mem = Mem(pa: nat, da: nat, size: nat, virt: int)

  class Rproc {
    const page: nat
    var mems: seq<Mem>
    // every live mmap of this instance, in order: start and length as the kernel was told
    ghost var live: seq<(int, nat)>

    /** Each registered memory stands for one live mapping, recomputed from what was registered. */
    ghost predicate Valid()
      reads this
    {
      && 0 < page <= Pow2(WORD)
      && |live| == |mems|
      && forall k :: 0 <= k < |mems| ==> live[k] == GetMmapAddrInfo(mems[k], page)
    }

    constructor (page: nat)
      requires 0 < page <= Pow2(WORD)
      ensures Valid() && this.page == page && mems == [] && live == []
    {
      this.page := page;
      mems, live := [], [];
    }

    /**
      rproc_mmap; `va` is what the kernel returns, if anything, and `room` whether both records
      could be allocated.  Without them the fresh mapping is undone.
     */
    method Mmap(pa: nat, da: nat, size: nat, va: Option<nat>, room: bool)
      returns (r: Option<int>, lpa: nat, lda: nat)
      requires Valid()
      modifies this
      ensures Valid()
      ensures pa == da == BAD_PHYS || va.None? || !room ==> r.None? && mems == old(mems) && live == old(live)
      ensures !(pa == da == BAD_PHYS) && va.Some? && room ==>
                && lpa == (if pa == BAD_PHYS then da else pa) && lda == (if da == BAD_PHYS then lpa else da)
                && live == old(live) + [(va.value, AlignedSize(lpa, size, page))]
                && mems == old(mems) + [Mem(lpa, lda, size, va.value + (lpa - AlignedStart(lpa, page)))]
                && r == if size > 0 then Some(va.value + (lpa - AlignedStart(lpa, page))) else None
    {
      hide And, Pow2, Wrap64, Not, AlignedStart, AlignedSize;
      lpa, lda := pa, da;
      if pa == BAD_PHYS && da == BAD_PHYS {
        return None, lpa, lda;
      }
      if lpa == BAD_PHYS {
        lpa := lda;
      }
      if lda == BAD_PHYS {
        lda := lpa;
      }
      if va.None? {
        return None, lpa, lda;
      }
      var offset: int := lpa - AlignedStart(lpa, page);
      var mapped := (va.value, AlignedSize(lpa, size, page));
      live := live + [mapped];
      if !room {
        assert live[|live| - 1] == mapped;
        live := live[..|live| - 1];
        return None, lpa, lda;
      }
      var mem := Mem(lpa, lda, size, va.value + offset);
      mems := mems + [mem];
      r := if size > 0 then Some(mem.virt) else None;
    }

    /** The loop of rproc_shutdown: every live mapping is unmapped, each once, and nothing else. */
    method UnmapAll() returns (calls: seq<(int, nat)>)
      requires Valid()
      modifies this
      ensures Valid() && mems == [] && live == [] && calls == old(live)
    {
      hide And, Pow2, Wrap64, Not, AlignedStart, AlignedSize;
      calls := [];
      while mems != []
        invariant Valid() && calls + live == old(live)
        decreases |mems|
      {
        var (virt, len) := GetMmapAddrInfo(mems[0], page);
        calls := calls + [(virt, len)];
        mems, live := mems[1..], live[1..];
      }
    }
  }

  /** get_mmap_addr_info: start and length recomputed from the registered address and size. */
  function GetMmapAddrInfo(m: Mem, page: nat): ((int, nat))
    requires 0 < page <= Pow2(WORD)
  {
    var offset: int := m.pa - AlignedStart(m.pa, page);
    (m.virt - offset, AlignedSize(m.pa, m.size, page))
  }
}
