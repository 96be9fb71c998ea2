/** How much room setup_vdev gives each vring and the buffers, and that no two of them overlap. */
module VdevRooms {
  import opened Words
  import opened Masks
  import opened Tally
  import opened ShmPool
  import opened VdevLayout

  /** The smallest multiple of `a` not below `x`. */
  function RoundUp(x: nat, a: nat): nat
    requires 0 < a
  {
    Floor(x + a - 1, a)
  }

  lemma RoundUpMeans(x: nat, a: nat)
    requires 0 < a
    ensures IsMultiple(RoundUp(x, a), a) && x <= RoundUp(x, a) < x + a
  {
    FloorMeans(x + a - 1, a);
  }

  /** ALIGN_UP on unsigned ints rounds up to a power of two exactly when the sum fits 32 bits. */
  lemma AlignUpExactly(x: nat, k: nat)
    requires k < 32
    ensures Pow2(k) < TWO32
    ensures AlignUp(x, Pow2(k)) == RoundUp(x, Pow2(k)) <==> x + Pow2(k) <= TWO32
  {
    hide And, Pow2, Floor, IsMultiple, Wrap32, Not;
    WordPowers();
    Pow2Mono(k, 31);
    var a := Pow2(k);
    Wrap32Small(a - 1);
    var y := Wrap32(x + a - 1);
    MaskRoundsDown(y, k, 32);
    NotMeans(a - 1);
    FloorMeans(y, a);
    Wrap32Small(Floor(y, a));
    if x + a <= TWO32 {
      Wrap32Small(x + a - 1);
    } else {
      Wrap32Loses(x + a - 1);
      RoundUpMeans(x, a);
    }
  }

  lemma Wrap32Loses(y: nat)
    requires y >= TWO32
    ensures Wrap32(y) <= y - TWO32
  {
  }

  /** Room a vring needs: its size, rounded up to its alignment. */
  function Room(vsize: SizeOf, v: Vring): nat {
    if v.align == 0 then 0 else RoundUp(vsize(v.num, v.align), v.align)
  }

  ghost predicate PowerOfTwo(a: nat) {
    exists k: nat :: k < 32 && a == Pow2(k)
  }

  /** A power-of-two alignment, as virtio demands, and a size whose rounding fits 32 bits. */
  ghost predicate Sized(vsize: SizeOf, v: Vring) {
    PowerOfTwo(v.align) && vsize(v.num, v.align) + v.align <= TWO32
  }

  /** `v'` is `v` with an automatic address recorded; a fixed address is where it was asked for. */
  ghost predicate PlacedAs(p: Pool, v: Vring, v': Vring, va: nat) {
    && v'.num == v.num && v'.align == v.align
    && (v.da == ADDR_ANY ==> v'.da == Wrap32(PhysOf(p, va)))
    && (v.da != ADDR_ANY ==> v'.da == v.da && (v.da != 0 ==> PhysOf(p, va) == v.da))
  }

  /** One vring takes exactly its room exactly when it is sized. */
  lemma PlacedRoom(vsize: SizeOf, p: Pool, v: Vring)
    requires Roomy(p) && PowerOfTwo(v.align) && PlaceOne(vsize, p, v).Some?
    ensures var s := PlaceOne(vsize, p, v).value;
            && PlacedAs(p, v, s.vring, s.va)
            && p.unused <= s.va <= s.pool.unused <= p.End() && s.pool == p.(unused := s.pool.unused) && Roomy(s.pool)
            && (v.da == ADDR_ANY || v.da == 0 ==> s.va == p.unused)
            && (s.pool.unused == s.va + Room(vsize, v) <==> Sized(vsize, v))
  {
    hide Pool.Alloc, AlignUp, RoundUp, Pow2, Wrap32;
    var k: nat :| k < 32 && v.align == Pow2(k);
    AlignUpExactly(vsize(v.num, v.align), k);
    var at := if v.da == ADDR_ANY then 0 else v.da;
    AllocPlain(p, at, BufSize(vsize, v));
    GrantedAt(p, at, BufSize(vsize, v));
  }

  /** An automatic vring finds its place exactly when its room is left. */
  lemma AutoRoom(vsize: SizeOf, p: Pool, v: Vring)
    requires Roomy(p) && Sized(vsize, v) && v.da == ADDR_ANY
    ensures PlaceOne(vsize, p, v).Some? <==> p.unused + Room(vsize, v) <= p.End()
  {
    hide Pool.Alloc, AlignUp, RoundUp, Pow2, Wrap32;
    var k: nat :| k < 32 && v.align == Pow2(k);
    AlignUpExactly(vsize(v.num, v.align), k);
    AllocPlain(p, 0, BufSize(vsize, v));
  }

  function Regions(vsize: SizeOf, vs: seq<Vring>, addrs: seq<nat>): (r: seq<Region>)
    requires |addrs| == |vs|
    ensures |r| == |vs|
  {
    seq(|vs|, k requires 0 <= k < |vs| => Region(addrs[k], Room(vsize, vs[k])))
  }

  lemma StackedOn(g: Region, log: seq<Region>, from: nat, mid: nat, to: nat)
    requires from <= g.va && g.va + g.len == mid <= to && Stacked(log, mid, to)
    ensures Stacked([g] + log, from, to)
  {
  }

  lemma {:induction false} PlaceRooms(vsize: SizeOf, p: Pool, vs: seq<Vring>)
    requires Roomy(p) && Place(vsize, p, vs).ok && forall k :: 0 <= k < |vs| ==> Sized(vsize, vs[k])
    ensures var r := Place(vsize, p, vs);
            && Stacked(Regions(vsize, vs, r.addrs), p.unused, r.pool.unused)
            && p.unused <= r.pool.unused <= p.End() && r.pool == p.(unused := r.pool.unused) && Roomy(r.pool)
            && forall k :: 0 <= k < |vs| ==> PlacedAs(p, vs[k], r.vrings[k], r.addrs[k])
    decreases |vs|
  {
    hide PlaceOne, Sized, Room, Stacked, PhysOf;
    if vs == [] {
      StackedNothing(p.unused);
      assert Regions(vsize, vs, []) == [];
    } else {
      SizedPower(vsize, vs[0]);
      PlacedRoom(vsize, p, vs[0]);
      var s := PlaceOne(vsize, p, vs[0]).value;
      var rest := Place(vsize, s.pool, vs[1..]);
      PlaceRooms(vsize, s.pool, vs[1..]);
      PhysKept(p, s.pool);
      StackedOn(Region(s.va, Room(vsize, vs[0])), Regions(vsize, vs[1..], rest.addrs),
                p.unused, s.pool.unused, rest.pool.unused);
      assert Regions(vsize, vs, Place(vsize, p, vs).addrs)
          == [Region(s.va, Room(vsize, vs[0]))] + Regions(vsize, vs[1..], rest.addrs);
      forall k | 0 <= k < |vs|
        ensures PlacedAs(p, vs[k], Place(vsize, p, vs).vrings[k], Place(vsize, p, vs).addrs[k])
      {
        assert k > 0 ==> PlacedAs(s.pool, vs[1..][k - 1], rest.vrings[k - 1], rest.addrs[k - 1]);
      }
    }
  }

  lemma SizedPower(vsize: SizeOf, v: Vring)
    requires Sized(vsize, v)
    ensures PowerOfTwo(v.align)
  {
  }

  lemma StackedNothing(from: nat)
    ensures Stacked([], from, from)
  {
  }

  /** The vrings of a layout, then its buffer of 512 bytes for each descriptor both ways. */
  function AllRegions(vsize: SizeOf, vs: seq<Vring>, l: Layout): seq<Region>
    requires l.Laid? && vs != [] && |l.addrs| == |vs|
  {
    Regions(vsize, vs, l.addrs) + [Region(l.buffer, 512 * vs[|vs| - 1].num * 2)]
  }

  /**
    Every successful set-up: each vring has its size rounded up to its alignment, the buffer 512
    bytes for each descriptor both ways; all lie in the free part of the pool, in order and pairwise
    disjoint; fixed vrings are where the table says, the others are recorded; and the free pointer
    ends at the end of the buffer.
   */
  lemma LaidApart(vsize: SizeOf, p: Pool, vs: seq<Vring>)
    requires Roomy(p) && Setup(vsize, p, vs).Laid? && forall k :: 0 <= k < |vs| ==> Sized(vsize, vs[k])
    requires vs[|vs| - 1].num < 0x40_0000
    ensures var l := Setup(vsize, p, vs);
            && |l.addrs| == |l.vrings| == |vs|
            && Stacked(AllRegions(vsize, vs, l), p.unused, l.pool.unused)
            && l.pool.unused == l.buffer + 512 * vs[|vs| - 1].num * 2 <= p.End()
            && forall k :: 0 <= k < |vs| ==> PlacedAs(p, vs[k], l.vrings[k], l.addrs[k])
  {
    hide Place, Pool.Alloc, Sized, PlacedAs, Room, Stacked;
    var r, n := Place(vsize, p, vs), 1024 * vs[|vs| - 1].num;
    PlaceRooms(vsize, p, vs);
    Wrap32Small(n);
    AllocPlain(r.pool, 0, Wrap32(n));
    StackedGrows(Regions(vsize, vs, r.addrs), p.unused, r.pool.unused, Region(Setup(vsize, p, vs).buffer, n));
  }

  /** The product for the buffer is exact exactly below 2^22 descriptors. */
  lemma BufferExactly(num: u32)
    ensures Wrap32(1024 * num) == 512 * num * 2 <==> num < 0x40_0000
  {
  }

  /** Rooms of a table that leaves every placement to the pool. */
  function RoomsOf(vsize: SizeOf): Vring -> nat {
    (v: Vring) => Room(vsize, v)
  }

  lemma {:induction false} AutoPlace(vsize: SizeOf, p: Pool, vs: seq<Vring>)
    requires Roomy(p) && forall k :: 0 <= k < |vs| ==> Sized(vsize, vs[k]) && vs[k].da == ADDR_ANY
    ensures Place(vsize, p, vs).ok <==> p.unused + Sum(RoomsOf(vsize), vs) <= p.End()
    ensures Place(vsize, p, vs).ok ==> Place(vsize, p, vs).pool == p.(unused := p.unused + Sum(RoomsOf(vsize), vs))
    decreases |vs|
  {
    hide PlaceOne, Sized, Room, Sum;
    if vs == [] {
      SumNothing(RoomsOf(vsize));
    } else {
      SumHead(RoomsOf(vsize), vs);
      SizedPower(vsize, vs[0]);
      AutoRoom(vsize, p, vs[0]);
      if PlaceOne(vsize, p, vs[0]).Some? {
        PlacedRoom(vsize, p, vs[0]);
        AutoPlace(vsize, PlaceOne(vsize, p, vs[0]).value.pool, vs[1..]);
      }
    }
  }

  /** With every placement left to the pool, set-up succeeds exactly when all the rooms and the buffer fit. */
  lemma AutoFitsExactly(vsize: SizeOf, p: Pool, vs: seq<Vring>)
    requires Roomy(p) && vs != [] && vs[|vs| - 1].num < 0x40_0000
    requires forall k :: 0 <= k < |vs| ==> Sized(vsize, vs[k]) && vs[k].da == ADDR_ANY
    ensures Setup(vsize, p, vs).Laid? <==>
            p.unused + Sum(RoomsOf(vsize), vs) + 512 * vs[|vs| - 1].num * 2 <= p.End()
  {
    hide Place, Pool.Alloc, Sized, Room, Sum;
    AutoPlace(vsize, p, vs);
    Wrap32Small(1024 * vs[|vs| - 1].num);
    if Place(vsize, p, vs).ok {
      AllocPlain(Place(vsize, p, vs).pool, 0, Wrap32(1024 * vs[|vs| - 1].num));
    }
  }

  /**
    Where the loop stops: at the first entry that cannot be placed behind those before it; these stay
    placed and recorded, and the rest of the table is untouched.
   */
  lemma {:induction false} StopsAt(vsize: SizeOf, p: Pool, vs: seq<Vring>) returns (i: nat)
    requires !Place(vsize, p, vs).ok
    ensures i < |vs| && Place(vsize, p, vs[..i]).ok && PlaceOne(vsize, Place(vsize, p, vs[..i]).pool, vs[i]).None?
    ensures Place(vsize, p, vs).pool == Place(vsize, p, vs[..i]).pool
    ensures Place(vsize, p, vs).vrings == Place(vsize, p, vs[..i]).vrings + vs[i..]
    decreases |vs|
  {
    hide PlaceOne;
    if PlaceOne(vsize, p, vs[0]).None? {
      i := 0;
      assert vs[..0] == [] && [] + vs[0..] == vs;
    } else {
      var s := PlaceOne(vsize, p, vs[0]).value;
      var j := StopsAt(vsize, s.pool, vs[1..]);
      i := j + 1;
      assert vs[..i][0] == vs[0] && vs[..i][1..] == vs[1..][..j] && vs[1..][j..] == vs[i..];
    }
  }

  /** A failure is -ENODEV for a table without vrings and -ENOMEM otherwise. */
  lemma SetupFails(vsize: SizeOf, p: Pool, vs: seq<Vring>)
    ensures Setup(vsize, p, vs).Failed? ==> Setup(vsize, p, vs).code == if vs == [] then -19 else -12
    ensures vs == [] ==> Setup(vsize, p, vs).Failed?
  {
    hide PlaceOne, Pool.Alloc;
  }
}
