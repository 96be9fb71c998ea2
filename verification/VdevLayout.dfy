/** Placing vrings and buffers in the pool, recording the addresses, and replaying the record. */
module VdevLayout {
  import opened Words
  import opened Errno
  import opened Masks
  import opened ShmPool

  const ADDR_ANY: u32 := 0xFFFF_FFFF           // FW_RSC_U32_ADDR_ANY

  /** One entry of the resource table. */
  datatype Vring = Vring(da: u32, num: u32, align: u32)

  /** vring_size of the virtio library. */
  type SizeOf = (u32, u32) -> nat

  /** ALIGN_UP on unsigned ints */
  function AlignUp(x: nat, align: u32): u32 {
    var low := Wrap32(align - 1);
    Wrap32(And(Wrap32(x + low), 0xFFFF_FFFF - low))
  }

  function BufSize(vsize: SizeOf, v: Vring): u32 {
    AlignUp(vsize(v.num, v.align), v.align)
  }

  datatype Spot = Spot(pool: Pool, vring: Vring, va: nat)

  /** One turn of the loop: anywhere, recording the address in 32 bits, or at the recorded address. */
  function PlaceOne(vsize: SizeOf, p: Pool, v: Vring): Option<Spot> {
    if v.da == ADDR_ANY then
      match p.Alloc(0, BufSize(vsize, v))
      case (_, None) => None
      case (q, Some(va)) => Some(Spot(q, v.(da := Wrap32(PhysOf(p, va))), va))
    else
      match p.Alloc(v.da, BufSize(vsize, v))
      case (_, None) => None
      case (q, Some(va)) => Some(Spot(q, v, va))
  }

  /** The state when the loop ends, whether it ran through or stopped at a failed placement. */
  datatype Placement = Placement(ok: bool, pool: Pool, vrings: seq<Vring>, addrs: seq<nat>)

  function Place(vsize: SizeOf, p: Pool, vs: seq<Vring>): (r: Placement)
    ensures |r.vrings| == |vs| && (r.ok ==> |r.addrs| == |vs|)
    decreases |vs|
  {
    if vs == [] then Placement(true, p, [], [])
    else match PlaceOne(vsize, p, vs[0])
      case None => Placement(false, p, vs, [])
      case Some(s) =>
        var rest := Place(vsize, s.pool, vs[1..]);
        Placement(rest.ok, rest.pool, [s.vring] + rest.vrings, [s.va] + rest.addrs)
  }

  datatype Layout = Laid(pool: Pool, vrings: seq<Vring>, addrs: seq<nat>, buffer: nat) | Failed(code: int)

  /** setup_vdev on a found vdev entry; the buffer size is an `unsigned int` product. */
  function Setup(vsize: SizeOf, p: Pool, vs: seq<Vring>): Layout {
    var r := Place(vsize, p, vs);
    if !r.ok then Failed(-ENOMEM)
    else if vs == [] then Failed(-ENODEV)
    else
      match r.pool.Alloc(0, Wrap32(1024 * vs[|vs| - 1].num))
      case (_, None) => Failed(-ENOMEM)
      case (q, Some(va)) => Laid(q, r.vrings, r.addrs, va)
  }

  // ---------- replay ----------

  /** The 32-bit record of a physical address leads back to it. */
  predicate Replayable(pa: nat) {
    pa < TWO32 || Wrap32(pa) == 0 || Wrap32(pa) == ADDR_ANY
  }

  /** From the same pool, the recorded entry is placed where it was, or cannot be placed at all. */
  lemma ReplayOne(vsize: SizeOf, p: Pool, v: Vring)
    requires p.size <= TWO32 && PlaceOne(vsize, p, v).Some?
    ensures var s := PlaceOne(vsize, p, v).value;
            PlaceOne(vsize, p, s.vring) ==
            if v.da == ADDR_ANY ==> Replayable(PhysOf(p, s.va)) then Some(s) else None
  {
    hide AlignUp;
    var s := PlaceOne(vsize, p, v).value;
    if v.da == ADDR_ANY {
      var pa := PhysOf(p, s.va);
      assert BufSize(vsize, s.vring) == BufSize(vsize, v);
      if pa >= TWO32 {
        assert Wrap32(pa) <= pa - TWO32;
      }
    }
  }

  /** Every automatically placed entry was placed at a replayable address. */
  ghost predicate AllReplayable(p: Pool, vs: seq<Vring>, addrs: seq<nat>)
    requires |addrs| == |vs|
  {
    forall k :: 0 <= k < |vs| && vs[k].da == ADDR_ANY ==> Replayable(PhysOf(p, addrs[k]))
  }

  lemma PlacedKeepsBase(vsize: SizeOf, p: Pool, v: Vring)
    requires PlaceOne(vsize, p, v).Some?
    ensures var q := PlaceOne(vsize, p, v).value.pool;
            q == p.(unused := q.unused) && forall va :: PhysOf(q, va) == PhysOf(p, va)
  {
    hide AlignUp;
  }

  lemma {:induction false} ReplayPlace(vsize: SizeOf, p: Pool, vs: seq<Vring>)
    requires p.size <= TWO32 && Place(vsize, p, vs).ok
    ensures var r := Place(vsize, p, vs);
            && (AllReplayable(p, vs, r.addrs) ==> Place(vsize, p, r.vrings) == r)
            && (!AllReplayable(p, vs, r.addrs) ==> !Place(vsize, p, r.vrings).ok)
    decreases |vs|
  {
    if vs != [] {
      var s := PlaceOne(vsize, p, vs[0]).value;
      var r, rest := Place(vsize, p, vs), Place(vsize, s.pool, vs[1..]);
      ReplayOne(vsize, p, vs[0]);
      PlacedKeepsBase(vsize, p, vs[0]);
      ReplayPlace(vsize, s.pool, vs[1..]);
      hide PlaceOne, PhysOf, Replayable, Pool.Alloc;
      assert r.vrings[1..] == rest.vrings;
      HeadAndTail(p, s.pool, vs, r.addrs);
    }
  }

  lemma HeadAndTail(p: Pool, q: Pool, vs: seq<Vring>, addrs: seq<nat>)
    requires vs != [] && |addrs| == |vs| && forall va :: PhysOf(q, va) == PhysOf(p, va)
    ensures AllReplayable(p, vs, addrs) <==>
            (vs[0].da == ADDR_ANY ==> Replayable(PhysOf(p, addrs[0]))) && AllReplayable(q, vs[1..], addrs[1..])
  {
    hide PhysOf, Replayable;
    if (vs[0].da == ADDR_ANY ==> Replayable(PhysOf(p, addrs[0]))) && AllReplayable(q, vs[1..], addrs[1..]) {
      forall k | 0 <= k < |vs| && vs[k].da == ADDR_ANY
        ensures Replayable(PhysOf(p, addrs[k]))
      {
        assert k > 0 ==> vs[1..][k - 1] == vs[k] && addrs[1..][k - 1] == addrs[k];
      }
    } else if AllReplayable(p, vs, addrs) {
      forall k | 0 <= k < |vs| - 1 && vs[1..][k].da == ADDR_ANY
        ensures Replayable(PhysOf(q, addrs[1..][k]))
      {
        assert vs[k + 1].da == ADDR_ANY;
      }
    }
  }

  /**
    Layout replay: setting up again from the same pool with the recorded table gives the same vring
    and buffer addresses, and the same table, exactly when every automatically placed vring got a
    physical address that fits in 32 bits or whose low 32 bits are 0 or the ANY marker.
   */
  lemma ReplayExactly(vsize: SizeOf, p: Pool, vs: seq<Vring>)
    requires p.size <= TWO32 && Setup(vsize, p, vs).Laid?
    ensures var l := Setup(vsize, p, vs);
            && |l.addrs| == |vs|
            && (AllReplayable(p, vs, l.addrs) ==> Setup(vsize, p, l.vrings) == l)
            && (!AllReplayable(p, vs, l.addrs) ==> Setup(vsize, p, l.vrings) == Failed(-ENOMEM))
  {
    ReplayPlace(vsize, p, vs);
    SameNumbers(vsize, p, vs);
    hide Place, Pool.Alloc, AllReplayable;
  }

  /** Recording an address changes nothing else of an entry. */
  lemma {:induction false} SameNumbers(vsize: SizeOf, p: Pool, vs: seq<Vring>)
    ensures forall k :: 0 <= k < |vs| ==> Place(vsize, p, vs).vrings[k].num == vs[k].num
    decreases |vs|
  {
    hide AlignUp;
    if vs != [] && PlaceOne(vsize, p, vs[0]).Some? {
      SameNumbers(vsize, PlaceOne(vsize, p, vs[0]).value.pool, vs[1..]);
      hide Pool.Alloc;
    }
  }

  /** A pool that ends below 4 GiB always replays. */
  lemma LowPoolReplays(vsize: SizeOf, p: Pool, vs: seq<Vring>)
    requires p.phys + p.size <= TWO32 && Setup(vsize, p, vs).Laid?
    ensures Setup(vsize, p, Setup(vsize, p, vs).vrings) == Setup(vsize, p, vs)
  {
    hide Setup, Place, PhysOf, Replayable;
    ReplayExactly(vsize, p, vs);
    forall k | 0 <= k < |vs|
      ensures Replayable(PhysOf(p, Setup(vsize, p, vs).addrs[k]))
    {
      LowReplayable(p, Setup(vsize, p, vs).addrs[k]);
    }
  }

  lemma LowReplayable(p: Pool, va: nat)
    requires p.phys + p.size <= TWO32
    ensures Replayable(PhysOf(p, va))
  {
  }

  // ---------- replay on a pool mapped elsewhere ----------

  /** A pool such that a 32-bit length added to an address in it stays within 64 bits. */
  ghost predicate Roomy(p: Pool) {
    p.Valid() && p.End() + TWO32 <= TWO64
  }

  /** The same physical pool, equally far used, mapped at any two virtual addresses. */
  ghost predicate Alike(p: Pool, q: Pool) {
    p.phys == q.phys && p.size == q.size && p.unused - p.virt == q.unused - q.virt && Roomy(p) && Roomy(q)
  }

  /** `a` in `p` and `b` in `q` are the same place of the pool. */
  ghost predicate SamePlace(p: Pool, a: nat, q: Pool, b: nat) {
    a - p.virt == b - q.virt && PhysOf(p, a) == PhysOf(q, b)
  }

  ghost predicate SamePlaces(p: Pool, xs: seq<nat>, q: Pool, bs: seq<nat>) {
    |xs| == |bs| && forall k :: 0 <= k < |xs| ==> SamePlace(p, xs[k], q, bs[k])
  }

  ghost predicate SameBase(p: Pool, q: Pool) {
    q == p.(unused := q.unused)
  }

  /** In a roomy pool no end of a region overflows. */
  lemma AllocPlain(p: Pool, at: nat, len: u32)
    requires Roomy(p)
    ensures var va := if at == 0 then Some(p.unused) else p.PhysToVirt(at);
            p.Alloc(at, len) ==
            if va.None? || va.value < p.unused || va.value + len > p.End() then (p, None)
            else (p.(unused := va.value + len), va)
  {
  }

  /** Where the pool is mapped makes no difference to an allocation. */
  lemma AllocAlike(p: Pool, q: Pool, at: nat, len: u32)
    requires Alike(p, q)
    ensures var ((p', a), (q', b)) := (p.Alloc(at, len), q.Alloc(at, len));
            && Alike(p', q') && SameBase(p, p') && SameBase(q, q')
            && (a.Some? <==> b.Some?) && (a.Some? ==> SamePlace(p, a.value, q, b.value))
  {
    hide Pool.Alloc;
    AllocPlain(p, at, len);
    AllocPlain(q, at, len);
  }

  lemma PlaceOneAlike(vsize: SizeOf, p: Pool, q: Pool, v: Vring)
    requires Alike(p, q)
    ensures var (a, b) := (PlaceOne(vsize, p, v), PlaceOne(vsize, q, v));
            && (a.Some? <==> b.Some?)
            && (a.Some? ==>
                  && a.value.vring == b.value.vring && SamePlace(p, a.value.va, q, b.value.va)
                  && Alike(a.value.pool, b.value.pool)
                  && SameBase(p, a.value.pool) && SameBase(q, b.value.pool))
  {
    hide AlignUp, Pool.Alloc, Alike, PhysOf;
    AllocAlike(p, q, if v.da == ADDR_ANY then 0 else v.da, BufSize(vsize, v));
  }

  lemma PlacesKept(p: Pool, p': Pool, xs: seq<nat>, q: Pool, q': Pool, bs: seq<nat>)
    requires SameBase(p, p') && SameBase(q, q') && SamePlaces(p', xs, q', bs)
    ensures SamePlaces(p, xs, q, bs)
  {
    forall k | 0 <= k < |xs|
      ensures SamePlace(p, xs[k], q, bs[k])
    {
      assert SamePlace(p', xs[k], q', bs[k]);
    }
  }

  /** Nor to the placement of a whole table. */
  lemma {:induction false} PlaceAlike(vsize: SizeOf, p: Pool, q: Pool, vs: seq<Vring>)
    requires Alike(p, q)
    ensures var (a, b) := (Place(vsize, p, vs), Place(vsize, q, vs));
            && a.ok == b.ok && a.vrings == b.vrings && Alike(a.pool, b.pool) && SamePlaces(p, a.addrs, q, b.addrs)
            && SameBase(p, a.pool) && SameBase(q, b.pool)
    decreases |vs|
  {
    hide PlaceOne, Alike, PhysOf, SamePlace;
    if vs != [] {
      PlaceOneAlike(vsize, p, q, vs[0]);
      if PlaceOne(vsize, p, vs[0]).Some? {
        var s, t := PlaceOne(vsize, p, vs[0]).value, PlaceOne(vsize, q, vs[0]).value;
        PlaceAlike(vsize, s.pool, t.pool, vs[1..]);
        PlacesKept(p, s.pool, Place(vsize, s.pool, vs[1..]).addrs, q, t.pool, Place(vsize, t.pool, vs[1..]).addrs);
      }
    }
  }

  /** Two layouts with equal tables and everything at the same physical addresses. */
  ghost predicate SameLayout(p: Pool, l: Layout, q: Pool, m: Layout) {
    && l.Laid? && m.Laid? && l.vrings == m.vrings
    && SamePlaces(p, l.addrs, q, m.addrs) && SamePlace(p, l.buffer, q, m.buffer) && Alike(l.pool, m.pool)
  }

  lemma SetupAlike(vsize: SizeOf, p: Pool, q: Pool, vs: seq<Vring>)
    requires Alike(p, q)
    ensures var (l, m) := (Setup(vsize, p, vs), Setup(vsize, q, vs));
            if l.Failed? then m == l else SameLayout(p, l, q, m)
  {
    hide Place, Pool.Alloc, Alike, SamePlaces, PhysOf;
    PlaceAlike(vsize, p, q, vs);
    if vs != [] && Place(vsize, p, vs).ok {
      AllocAlike(Place(vsize, p, vs).pool, Place(vsize, q, vs).pool, 0, Wrap32(1024 * vs[|vs| - 1].num));
      PhysKept(p, Place(vsize, p, vs).pool);
      PhysKept(q, Place(vsize, q, vs).pool);
    }
  }

  lemma PhysKept(p: Pool, p': Pool)
    requires SameBase(p, p')
    ensures forall va :: PhysOf(p', va) == PhysOf(p, va)
  {
  }

  /**
    Layout replay after a restart: the pool is mapped again, at any virtual address.  With the
    recorded table everything comes back at the same physical address, and the table stays as it
    is, exactly when every automatically placed vring got an address its 32-bit record leads back to.
   */
  lemma ReplayElsewhere(vsize: SizeOf, p: Pool, q: Pool, vs: seq<Vring>)
    requires p.size <= TWO32 && Alike(p, q) && Setup(vsize, p, vs).Laid?
    ensures var l := Setup(vsize, p, vs);
            var m := Setup(vsize, q, l.vrings);
            && |l.addrs| == |vs|
            && (AllReplayable(p, vs, l.addrs) ==> SameLayout(p, l, q, m))
            && (!AllReplayable(p, vs, l.addrs) ==> m == Failed(-ENOMEM))
  {
    hide Setup, AllReplayable, SamePlaces, SamePlace, Alike;
    ReplayExactly(vsize, p, vs);
    SetupAlike(vsize, p, q, Setup(vsize, p, vs).vrings);
  }

  /** A pool that ends below 4 GiB replays wherever it is mapped. */
  lemma LowPoolReplaysElsewhere(vsize: SizeOf, p: Pool, q: Pool, vs: seq<Vring>)
    requires p.phys + p.size <= TWO32 && Alike(p, q) && Setup(vsize, p, vs).Laid?
    ensures SameLayout(p, Setup(vsize, p, vs), q, Setup(vsize, q, Setup(vsize, p, vs).vrings))
  {
    hide Setup, SameLayout, Alike;
    LowPoolReplays(vsize, p, vs);
    SetupAlike(vsize, p, q, Setup(vsize, p, vs).vrings);
  }

  // ---------- rounding up ----------

  lemma WordPowers()
    ensures Pow2(31) == TWO31 && Pow2(32) == TWO32
  {
    assert Pow2(8) == 0x100;
    assert Pow2(16) == 0x100 * Pow2(8);
    assert Pow2(24) == 0x100 * Pow2(16);
    assert Pow2(31) == 0x80 * Pow2(24);
  }

  /** A vring size is rounded up to the next multiple of its power-of-two alignment. */
  lemma AlignUpMeans(x: nat, k: nat)
    requires k < 32 && x + Pow2(k) <= TWO32
    ensures Pow2(k) < TWO32
    ensures var (a, up) := (Pow2(k), AlignUp(x, Pow2(k)));
            IsMultiple(up, a) && x <= up < x + a
  {
    hide And, Pow2, Floor, IsMultiple, Wrap32, Not;
    WordPowers();
    Pow2Mono(k, 31);
    var a := Pow2(k);
    Wrap32Small(a - 1);
    Wrap32Small(x + a - 1);
    MaskRoundsDown(x + a - 1, k, 32);
    NotMeans(a - 1);
    FloorMeans(x + a - 1, a);
    Wrap32Small(Floor(x + a - 1, a));
  }

  lemma NotMeans(x: u32)
    ensures Pow2(32) == TWO32 && Not(32, x) == 0xFFFF_FFFF - x
  {
    WordPowers();
  }

  // ---------- in place ----------

  /** What was placed so far, in front of what is left. */
  function Prefixed(vs: seq<Vring>, addrs: seq<nat>, r: Placement): Placement {
    Placement(r.ok, r.pool, vs + r.vrings, addrs + r.addrs)
  }

  lemma PrefixedStep(vs: seq<Vring>, addrs: seq<nat>, v: Vring, va: nat, r: Placement)
    ensures Prefixed(vs, addrs, Prefixed([v], [va], r)) == Prefixed(vs + [v], addrs + [va], r)
  {
    assert vs + ([v] + r.vrings) == (vs + [v]) + r.vrings;
    assert addrs + ([va] + r.addrs) == (addrs + [va]) + r.addrs;
  }

  /** One turn of the vring loop, with the entry as it is left. */
  method PlaceVring(pool: ClientPool, v: Vring, vsize: SizeOf) returns (va: Option<nat>, v': Vring)
    modifies pool`unused
    ensures PlaceOne(vsize, old(pool.Value()), v) ==
            if va.None? then None else Some(Spot(pool.Value(), v', va.value))
    ensures va.None? ==> pool.Value() == old(pool.Value()) && v' == v
  {
    hide AlignUp, Pool.Alloc;
    v' := v;
    va := pool.AllocRegion(if v.da == ADDR_ANY then 0 else v.da, BufSize(vsize, v));
    if va.Some? && v.da == ADDR_ANY {
      var pa := BAD_PHYS;
      if pool.virt <= va.value < pool.virt + pool.size {
        pa := pool.phys + (va.value - pool.virt);
      }
      v' := v.(da := Wrap32(pa));
    }
  }

  lemma PlaceHead(vsize: SizeOf, p: Pool, vs: seq<Vring>)
    requires vs != []
    ensures Place(vsize, p, vs) ==
            match PlaceOne(vsize, p, vs[0])
            case None => Placement(false, p, vs, [])
            case Some(s) => Prefixed([s.vring], [s.va], Place(vsize, s.pool, vs[1..]))
  {
    hide PlaceOne;
  }

  /** The vring loop of setup_vdev: allocates and writes addresses back into the resource table. */
  method PlaceVrings(pool: ClientPool, vrings: array<Vring>, vsize: SizeOf) returns (ok: bool, addrs: seq<nat>)
    modifies pool`unused, vrings
    ensures Placement(ok, pool.Value(), vrings[..], addrs) == Place(vsize, old(pool.Value()), old(vrings[..]))
  {
    hide PlaceOne, Place, Prefixed;
    ghost var p0, vs := pool.Value(), vrings[..];
    addrs := [];
    NothingPlaced(vsize, p0, vs);
    for i := 0 to vrings.Length
      invariant vrings[i..] == vs[i..]
      invariant Place(vsize, p0, vs) == Prefixed(vrings[..i], addrs, Place(vsize, pool.Value(), vs[i..]))
    {
      assert vs[i..][0] == vrings[i] && vs[i..][1..] == vs[i + 1..];
      ghost var before := vrings[..i];
      PlaceHead(vsize, pool.Value(), vs[i..]);
      var va, v := PlaceVring(pool, vrings[i], vsize);
      if va.None? {
        Stopped(before, addrs, pool.Value(), vs[i..]);
        assert vrings[..] == before + vs[i..];
        return false, addrs;
      }
      vrings[i] := v;
      PrefixedStep(before, addrs, v, va.value, Place(vsize, pool.Value(), vs[i + 1..]));
      assert vrings[..i + 1] == before + [v];
      addrs := addrs + [va.value];
    }
    assert vs[vrings.Length..] == [] && vrings[..vrings.Length] == vrings[..];
    AllPlaced(vsize, vrings[..], addrs, pool.Value());
    ok := true;
  }

  lemma NothingPlaced(vsize: SizeOf, p: Pool, vs: seq<Vring>)
    ensures Place(vsize, p, vs) == Prefixed(vs[..0], [], Place(vsize, p, vs[0..]))
  {
    hide Place;
    assert vs[0..] == vs;
    var r := Place(vsize, p, vs);
    assert [] + r.vrings == r.vrings && [] + r.addrs == r.addrs;
  }

  lemma Stopped(vs: seq<Vring>, addrs: seq<nat>, p: Pool, rest: seq<Vring>)
    ensures Prefixed(vs, addrs, Placement(false, p, rest, [])) == Placement(false, p, vs + rest, addrs)
  {
    assert addrs + [] == addrs;
  }

  lemma AllPlaced(vsize: SizeOf, vs: seq<Vring>, addrs: seq<nat>, p: Pool)
    ensures Prefixed(vs, addrs, Place(vsize, p, [])) == Placement(true, p, vs, addrs)
  {
    assert vs + [] == vs && addrs + [] == addrs;
  }

  /** setup_vdev; without a vdev entry there are no vrings. */
  method SetupVdev(pool: ClientPool, vrings: array?<Vring>, vsize: SizeOf)
    returns (ret: int, addrs: seq<nat>, buffer: nat)
    modifies pool`unused, vrings
    ensures vrings == null ==> ret == -ENODEV && pool.Value() == old(pool.Value())
    ensures vrings != null ==>
              match Setup(vsize, old(pool.Value()), old(vrings[..]))
              case Failed(code) => ret == code
              case Laid(q, vs, at, buf) =>
                ret == 0 && pool.Value() == q && vrings[..] == vs && addrs == at && buffer == buf
    ensures vrings != null ==> vrings[..] == Place(vsize, old(pool.Value()), old(vrings[..])).vrings
    ensures vrings != null && ret != 0 ==> pool.Value() == Place(vsize, old(pool.Value()), old(vrings[..])).pool
  {
    buffer, addrs := 0, [];
    if vrings == null {
      return -ENODEV, addrs, buffer;
    }
    ghost var p0, vs := pool.Value(), vrings[..];
    SameNumbers(vsize, p0, vs);
    hide AlignUp, Pool.Alloc, Place;
    var ok;
    ok, addrs := PlaceVrings(pool, vrings, vsize);
    if !ok {
      return -ENOMEM, addrs, buffer;
    }
    if vrings.Length == 0 {
      return -ENODEV, addrs, buffer;
    }
    var va := pool.AllocRegion(0, Wrap32(1024 * vrings[vrings.Length - 1].num));
    if va.None? {
      return -ENOMEM, addrs, buffer;
    }
    return 0, addrs, va.value;
  }
}
