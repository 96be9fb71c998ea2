/** setup_rbuf_dev: one region of the pool split into the two debug rings. */
module RbufDevice {
  import opened Words
  import opened Errno
  import opened RingBuffer
  import opened RingSession
  import opened ShmPool

  const RBUF_STATE_INIT: nat := 1

  /** What the device and the resource entry hold afterwards; offsets are from the start of the pool. */
  datatype Device = Device(rx: nat, tx: int, half: i32, pa: nat, da: nat, state: nat)

  /** Half of a 64-bit length, stored in an `int`. */
  function Half(len: nat): i32 {
    AsI32(Wrap32(len / 2))
  }

  /** ring_buffer_pair_init refuses this half. */
  predicate TooShort(half: i32) {
    0 <= half <= HEADER
  }

  /** The region lies in the pool and, unless refused, both rings lie in the region, clear of each other. */
  predicate WellPlaced(p: Pool, va: nat, len: nat) {
    && va + len <= p.End()
    && (TooShort(Half(len)) ||
        var (rx, tx, n) := (va, va + Half(len), Span(Half(len)));
        && rx + n <= va + len && va <= tx && tx + n <= va + len
        && (rx + n <= tx || tx + n <= rx))
  }

  /**
    Whatever length the resource table asks for: a granted region is well placed exactly when its end
    does not overflow 64 bits and half of it is not negative as an `int`.
   */
  lemma PlacedExactly(p: Pool, len: nat)
    requires p.Valid() && len < TWO64 && p.Alloc(0, len).1.Some?
    ensures WellPlaced(p, p.unused, len) <==> p.unused + len < TWO64 && 0 <= Half(len)
  {
    GrantedInside(p, 0, len);
    HalfFits(len);
    hide Pool.Alloc, Half;
  }

  lemma HalfFits(len: nat)
    ensures 0 <= Half(len) ==> 2 * Half(len) <= len
    ensures len < TWO32 && 0 <= Half(len) ==> len < 2 * Half(len) + 2
  {
  }

  /**
    A length that is not: every fresh pool grants 2^64 - 2 bytes and moves its free pointer back;
    half of it is -1, so the second header would be stored from one byte before the pool.
   */
  lemma WildLength(phys: nat, virt: nat, size: nat)
    requires 2 <= virt && Fresh(phys, virt, size).Valid()
    ensures var (p, len) := (Fresh(phys, virt, size), TWO64 - 2);
            && p.Alloc(0, len) == (p.(unused := virt - 2), Some(virt))
            && Half(len) == -1 && !TooShort(Half(len)) && !WellPlaced(p, virt, len)
  {
  }

  /** Two empty rings filling the region of `len` bytes between them, but for an odd last byte. */
  ghost predicate TwoRings(m: seq<byte>, d: Device, len: nat) {
    && d.half > HEADER && d.tx == d.rx + d.half && d.tx + d.half <= d.rx + len <= |m|
    && (len < TWO32 ==> d.rx + len <= d.tx + d.half + 1)
    && EmptyRing(m, d.rx, d.half) && EmptyRing(m, d.tx, d.half)
  }

  ghost predicate EmptyRing(m: seq<byte>, b: nat, n: nat) {
    RingIn(m, b) && Extent(m, b) == n && RingAt(m, b).Contents() == []
  }

  /**
    `mem` is the pool as mapped.  A length without room is refused.  If each half is longer than a
    ring header, both rings are set up, empty, inside the region and clear of each other, and nothing
    outside the region is written; if a half is shorter, initialisation is refused but the call still
    reports success.  `wild` says that the region is not well placed: the headers would then be
    stored outside it, and the call is not followed further.
   */
  method SetupRbufDev(pool: ClientPool, mem: array<byte>, len: Option<nat>) returns (ret: int, d: Device, wild: bool)
    requires pool.Value().Valid() && mem.Length == pool.size && (len.Some? ==> len.value < TWO64)
    modifies pool`unused, mem
    ensures len.None? ==> ret == -ENODEV && pool.Value() == old(pool.Value())
    ensures len.Some? ==>
              (ret, pool.Value()) == match old(pool.Value()).Alloc(0, len.value)
                                     case (p, None) => (-ENOMEM, p)
                                     case (p, Some(_)) => (0, p)
    ensures ret != 0 || wild ==> mem[..] == old(mem[..])
    ensures wild <==>
              && ret == 0 && !TooShort(Half(len.value))
              && (old(pool.unused) + len.value >= TWO64 || Half(len.value) < 0)
    ensures ret == 0 ==>
              && d.rx == old(pool.unused) - pool.virt && d.half == Half(len.value) && d.tx == d.rx + d.half
              && d.pa == d.da == PhysOf(old(pool.Value()), old(pool.unused)) && d.state == RBUF_STATE_INIT
              && (TooShort(d.half) ==> mem[..] == old(mem[..]))
    ensures ret == 0 && !wild && !TooShort(d.half) ==>
              TwoRings(mem[..], d, len.value) && ChangedOnly(old(mem[..]), mem[..], d.rx, len.value)
  {
    hide Word, Half, PhysOf;
    d, wild := Device(0, 0, 0, 0, 0, 0), false;
    if len.None? {
      return -ENODEV, d, wild;
    }
    ghost var p := pool.Value();
    var va := pool.AllocRegion(0, len.value);
    if va.None? {
      return -ENOMEM, d, wild;
    }
    GrantedInside(p, 0, len.value);
    HalfFits(len.value);
    hide Pool.Alloc;
    var rx, half := va.value - pool.virt, Half(len.value);
    var pa := PhysOf(Pool(pool.phys, pool.virt, pool.size, va.value), va.value);
    d := Device(rx, rx + half, half, pa, pa, RBUF_STATE_INIT);
    if !TooShort(half) && (va.value + len.value >= TWO64 || half < 0) {
      return 0, d, true;
    }
    ghost var m := mem[..];
    var r := RingBufferPairInit(mem, Some(rx), Some(rx + half), half);
    if r == 0 {
      TwoHalves(m, mem[..], rx, half, len.value);
    }
    ret := 0;
  }

  lemma TwoHalves(m: seq<byte>, m': seq<byte>, rx: nat, half: nat, len: nat)
    requires ChangedOnlyTwo(m, m', rx, half, rx + half, half) && 2 * half <= len
    ensures ChangedOnly(m, m', rx, len)
  {
  }
}
