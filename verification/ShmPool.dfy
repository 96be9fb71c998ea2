/** The shared-memory pool of a client: a bump allocator with optional fixed placement. */
module ShmPool {
  import opened Words
  import opened Errno

  const SHM_POOL_SIZE: nat := 0x2_0000

  /** Where the pool lies, physically and as mapped, and where its free part starts. */
  datatype Pool = Pool(phys: nat, virt: nat, size: nat, unused: nat) {

    function End(): nat {
      virt + size
    }

    ghost predicate Valid() {
      virt <= unused <= End() < TWO64 && phys + size < TWO64
    }

    /** shm_pool_phys_to_virt: base plus offset, if in range. */
    function PhysToVirt(p: nat): Option<nat> {
      if phys <= p < phys + size then Some(virt + (p - phys)) else None
    }

    /** shm_pool_virt_to_phys */
    function VirtToPhys(v: nat): Option<nat> {
      if virt <= v < End() then Some(phys + (v - virt)) else None
    }

    /** alloc_shmem_region: the pool afterwards and the address granted, if any. */
    function Alloc(at: nat, len: nat): (r: (Pool, Option<nat>)) {
      var va := if at == 0 then Some(unused) else PhysToVirt(at);
      if va.None? || va.value < unused then (this, None)
      else
        var end := (va.value + len) % TWO64;
        if end > End() then (this, None)
        else (this.(unused := end), va)
    }
  }

  /** The physical address of a granted region, as the conversion reports it. */
  function PhysOf(p: Pool, va: nat): nat {
    match p.VirtToPhys(va) case None => BAD_PHYS case Some(x) => x
  }

  /** init_shmem_pool on a mapped range */
  function Fresh(phys: nat, virt: nat, size: nat): Pool {
    Pool(phys, virt, size, virt)
  }

  /** The two address conversions undo each other on the pool and answer nothing outside it. */
  lemma Translations(p: Pool, x: nat)
    ensures p.PhysToVirt(x).Some? <==> p.phys <= x < p.phys + p.size
    ensures p.VirtToPhys(x).Some? <==> p.virt <= x < p.virt + p.size
    ensures p.PhysToVirt(x).Some? ==> p.VirtToPhys(p.PhysToVirt(x).value) == Some(x)
    ensures p.VirtToPhys(x).Some? ==> p.PhysToVirt(p.VirtToPhys(x).value) == Some(x)
  {
  }

  /** A region is granted at the physical address asked for, or, when none is, at the free pointer. */
  lemma GrantedAt(p: Pool, at: nat, len: nat)
    requires p.Alloc(at, len).1.Some?
    ensures at == 0 ==> p.Alloc(at, len).1.value == p.unused
    ensures at != 0 ==> p.VirtToPhys(p.Alloc(at, len).1.value) == Some(at)
  {
    Translations(p, at);
  }

  /**
    In offsets from the start of the pool: a request is granted exactly when it starts at or behind
    the used part and ends in the pool; a fixed address outside the pool is refused.
   */
  lemma GrantedExactly(p: Pool, at: nat, len: nat)
    requires p.Valid() && p.End() + len < TWO64
    ensures var (used, from) := (p.unused - p.virt, if at == 0 then p.unused - p.virt else at - p.phys);
            p.Alloc(at, len).1.Some? <==>
            (at == 0 || p.phys <= at < p.phys + p.size) && used <= from && from + len <= p.size
  {
  }

  /** A granted region lies in the free part of the pool exactly when its end does not overflow. */
  lemma GrantedInside(p: Pool, at: nat, len: nat)
    requires p.Valid() && p.Alloc(at, len).1.Some? && len < TWO64
    ensures var va := p.Alloc(at, len).1.value;
            && p.unused <= va
            && (va + len <= p.End() <==> va + len < TWO64)
            && (va + len < TWO64 ==> p.Alloc(at, len).0.Valid() && p.Alloc(at, len).0.unused == va + len)
  {
  }

  /** A length near 2^64 is granted and moves the free pointer backwards. */
  lemma WrappingGrant(phys: nat, virt: nat)
    requires 0 < virt && virt + SHM_POOL_SIZE < TWO64 && phys + SHM_POOL_SIZE < TWO64
    ensures var p := Fresh(phys, virt, SHM_POOL_SIZE);
            p.Alloc(0, TWO64 - 1) == (p.(unused := virt - 1), Some(virt))
  {
  }

  // ---------- runs ----------

  datatype Request = Request(at: nat, len: nat)

  datatype Region = Region(va: nat, len: nat)

  /** The pool and the regions handed out after a series of requests. */
  function Serve(p: Pool, reqs: seq<Request>): (Pool, seq<Region>) {
    if reqs == [] then (p, [])
    else
      var (q, log) := Serve(p, reqs[..|reqs| - 1]);
      var r := reqs[|reqs| - 1];
      match q.Alloc(r.at, r.len)
      case (q', None) => (q', log)
      case (q', Some(va)) => (q', log + [Region(va, r.len)])
  }

  /** No request is so long that its end could overflow. */
  predicate Modest(p: Pool, reqs: seq<Request>) {
    forall k :: 0 <= k < |reqs| ==> p.End() + reqs[k].len < TWO64
  }

  function Granted(log: seq<Region>): nat {
    if log == [] then 0 else Granted(log[..|log| - 1]) + log[|log| - 1].len
  }

  /** Bytes skipped before each region by fixed placement. */
  function Skipped(from: nat, log: seq<Region>): int {
    if log == [] then 0
    else
      var n := |log| - 1;
      Skipped(from, log[..n]) + (log[n].va - if n == 0 then from else log[n - 1].va + log[n - 1].len)
  }

  function Top(from: nat, log: seq<Region>): nat {
    if log == [] then from else log[|log| - 1].va + log[|log| - 1].len
  }

  /** Regions in order, none reaching into the next, all in `[from, to]`. */
  ghost predicate Stacked(log: seq<Region>, from: nat, to: nat) {
    && (forall i :: 0 <= i < |log| ==> from <= log[i].va && log[i].va + log[i].len <= to)
    && (forall i, j :: 0 <= i < j < |log| ==> log[i].va + log[i].len <= log[j].va)
  }

  /**
    Over every run of requests on a fresh pool: the regions handed out are pairwise disjoint and
    inside the pool, a refused request changes nothing, and bytes granted plus bytes skipped are
    exactly the advance of the free pointer.
   */
  lemma {:induction false} ServedDisjoint(p: Pool, reqs: seq<Request>)
    requires p.Valid() && p.unused == p.virt && Modest(p, reqs)
    ensures var (q, log) := Serve(p, reqs);
            && q == p.(unused := q.unused) && q.Valid()
            && Stacked(log, p.virt, q.unused)
            && q.unused == Top(p.virt, log)
            && Granted(log) + Skipped(p.virt, log) == q.unused - p.virt && 0 <= Skipped(p.virt, log)
    decreases |reqs|
  {
    if reqs == [] {
      assert Granted([]) == 0;
    } else {
      hide Pool.Alloc, Granted, Skipped, Top, Serve, Stacked;
      var before, r := reqs[..|reqs| - 1], reqs[|reqs| - 1];
      ServedDisjoint(p, before);
      ServeStep(p, reqs);
      var (q, log) := Serve(p, before);
      if q.Alloc(r.at, r.len).1.Some? {
        GrantedInside(q, r.at, r.len);
        var g := Region(q.Alloc(r.at, r.len).1.value, r.len);
        LogGrows(p.virt, log, g);
        StackedGrows(log, p.virt, q.unused, g);
      }
    }
  }

  lemma ServeStep(p: Pool, reqs: seq<Request>)
    requires reqs != []
    ensures var (q, log) := Serve(p, reqs[..|reqs| - 1]);
            var r := reqs[|reqs| - 1];
            match q.Alloc(r.at, r.len).1
            case None => Serve(p, reqs) == (q, log)
            case Some(va) =>
              Serve(p, reqs) == (q.(unused := q.Alloc(r.at, r.len).0.unused), log + [Region(va, r.len)])
  {
  }

  lemma StackedGrows(log: seq<Region>, from: nat, to: nat, g: Region)
    requires Stacked(log, from, to) && from <= to <= g.va
    ensures Stacked(log + [g], from, g.va + g.len)
  {
  }

  lemma LogGrows(from: nat, log: seq<Region>, g: Region)
    ensures Granted(log + [g]) == Granted(log) + g.len
    ensures Skipped(from, log + [g]) == Skipped(from, log) + (g.va - Top(from, log))
    ensures Top(from, log + [g]) == g.va + g.len
  {
    assert (log + [g])[..|log|] == log;
  }

  // ---------- pools of different CPUs ----------

  /** rproc_config: the offset is an `unsigned int` product. */
  function PoolBase(base: nat, cpu: u32): nat {
    base + Wrap32(cpu * SHM_POOL_SIZE)
  }

  predicate Apart(a: nat, b: nat, len: nat) {
    a + len <= b || b + len <= a
  }

  /** Two CPUs get disjoint pools exactly when their numbers differ modulo 2^15. */
  lemma PoolsApartExactly(base: nat, a: u32, b: u32)
    ensures Apart(PoolBase(base, a), PoolBase(base, b), SHM_POOL_SIZE) <==> a % 0x8000 != b % 0x8000
  {
    BaseMeans(base, a);
    BaseMeans(base, b);
  }

  lemma BaseMeans(base: nat, cpu: u32)
    ensures PoolBase(base, cpu) == base + cpu % 0x8000 * SHM_POOL_SIZE
  {
    var q, r := cpu / 0x8000, cpu % 0x8000;
    assert cpu * SHM_POOL_SIZE == q * TWO32 + r * SHM_POOL_SIZE;
    ModUnique(cpu * SHM_POOL_SIZE, q, r * SHM_POOL_SIZE, TWO32);
  }

  /** Regions of two clients on CPUs that differ modulo 2^15 never share a physical byte. */
  lemma ClientsApart(base: nat, a: u32, b: u32, va: nat, vb: nat, ra: seq<Request>, rb: seq<Request>, i: nat, j: nat)
    requires a % 0x8000 != b % 0x8000
    requires var (p, q) := (Fresh(PoolBase(base, a), va, SHM_POOL_SIZE), Fresh(PoolBase(base, b), vb, SHM_POOL_SIZE));
             && p.Valid() && q.Valid() && Modest(p, ra) && Modest(q, rb)
             && i < |Serve(p, ra).1| && j < |Serve(q, rb).1|
    ensures var (p, q) := (Fresh(PoolBase(base, a), va, SHM_POOL_SIZE), Fresh(PoolBase(base, b), vb, SHM_POOL_SIZE));
            var (x, y) := (Serve(p, ra).1[i], Serve(q, rb).1[j]);
            var (px, py) := (p.phys + (x.va - p.virt), q.phys + (y.va - q.virt));
            px + x.len <= py || py + y.len <= px
  {
    PoolsApartExactly(base, a, b);
    var p, q := Fresh(PoolBase(base, a), va, SHM_POOL_SIZE), Fresh(PoolBase(base, b), vb, SHM_POOL_SIZE);
    ServedDisjoint(p, ra);
    ServedDisjoint(q, rb);
    hide Serve, PoolBase, Granted, Skipped, Top;
  }

  /** The pool fields of a client, updated in place. */
  class ClientPool {
    var phys: nat
    var virt: nat
    var size: nat
    var unused: nat

    ghost function Value(): Pool
      reads this
    {
      Pool(phys, virt, size, unused)
    }

    /** init_shmem_pool once the range is mapped at `virt` */
    constructor (phys: nat, virt: nat, size: nat)
      ensures Value() == Fresh(phys, virt, size)
    {
      this.phys, this.virt, this.size, this.unused := phys, virt, size, virt;
    }

    /** alloc_shmem_region */
    method AllocRegion(at: nat, len: nat) returns (r: Option<nat>)
      modifies this`unused
      ensures (Value(), r) == old(Value()).Alloc(at, len)
      ensures r.None? ==> Value() == old(Value())
    {
      var va := unused;
      if at != 0 {
        if !(phys <= at < phys + size) {
          return None;
        }
        va := virt + (at - phys);
        if va < unused {
          return None;
        }
      }
      if (va + len) % TWO64 > virt + size {
        return None;
      }
      unused := (va + len) % TWO64;
      return Some(va);
    }
  }
}
