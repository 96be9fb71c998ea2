/** encode_hostent and decode_hostent, step by step over a buffer. */
module HostentCodec {
  import opened Words
  import opened Memory
  import opened Wire
  import opened Hostent

  /** Besides what `m` held, the buffer holds `stored` behind the header, short of `buflen`. */
  ghost predicate Holds(buf: seq<byte>, m: seq<byte>, stored: seq<byte>, buflen: int) {
    && HEAD + |stored| <= |m|
    && buf == Splice(m, HEAD, stored)
    && (stored == [] || HEAD + |stored| < buflen)
  }

  /** One part: refused if it would reach the end of the buffer, else copied at the cursor. */
  method PutPart(buf: array<byte>, at: nat, part: seq<byte>, buflen: i32, ghost m: seq<byte>, ghost stored: seq<byte>)
    returns (ok: bool)
    requires buflen <= buf.Length && at == HEAD + |stored| && Holds(buf[..], m, stored, buflen)
    modifies buf
    ensures ok <==> at + |part| < buflen
    ensures Holds(buf[..], m, if ok then stored + part else stored, buflen)
  {
    if at + |part| >= buflen {
      return false;
    }
    Memcpy(buf, at, part);
    SpliceAppend(m, HEAD, stored, part);
    return true;
  }

  /** Incrementing a `short`. */
  function NextShort(x: int): int {
    if x == 0x7FFF then -0x8000 else x + 1
  }

  lemma ShortCounts(n: nat)
    ensures Short(n + 1) == NextShort(Short(n))
  {
  }

  /** The alias loop: every string with its terminator, and the wrapping counter. */
  method PutAliases(buf: array<byte>, from: nat, ss: seq<seq<byte>>, buflen: i32,
                    ghost m: seq<byte>, ghost stored: seq<byte>)
    returns (ok: bool, at: nat, count: int, ghost now: seq<byte>)
    requires buflen <= buf.Length && from == HEAD + |stored| && Holds(buf[..], m, stored, buflen)
    modifies buf
    ensures ok <==> ss == [] || from + |Strings(ss)| < buflen
    ensures Holds(buf[..], m, now, buflen)
    ensures ok ==> now == stored + Strings(ss) && at == HEAD + |now| && count == Short(|ss|)
  {
    at, count, now := from, 0, stored;
    assert ss[..0] == [];
    for i := 0 to |ss|
      invariant Holds(buf[..], m, now, buflen) && now == stored + Strings(ss[..i]) && at == HEAD + |now|
      invariant count == Short(i)
      invariant i == 0 || at < buflen
    {
      var part := ss[i] + [0];
      assert ss[..i + 1][..i] == ss[..i];
      assert Strings(ss[..i + 1]) == Strings(ss[..i]) + part;
      var more := PutPart(buf, at, part, buflen, m, now);
      if !more {
        StringsPrefix(ss, i + 1);
        return false, at, count, now;
      }
      ShortCounts(i);
      assert now + part == stored + Strings(ss[..i + 1]);
      at, count, now := at + |part|, NextShort(count), now + part;
    }
    assert ss[..|ss|] == ss;
    ok := true;
  }

  /** The address loop. */
  method PutAddrs(buf: array<byte>, from: nat, xs: seq<seq<byte>>, buflen: i32,
                  ghost m: seq<byte>, ghost stored: seq<byte>)
    returns (ok: bool, at: nat, count: int, ghost now: seq<byte>)
    requires buflen <= buf.Length && from == HEAD + |stored| && Holds(buf[..], m, stored, buflen)
    modifies buf
    ensures ok <==> xs == [] || from + |Packed(xs)| < buflen
    ensures Holds(buf[..], m, now, buflen)
    ensures ok ==> now == stored + Packed(xs) && at == HEAD + |now| && count == Short(|xs|)
  {
    at, count, now := from, 0, stored;
    assert xs[..0] == [];
    for i := 0 to |xs|
      invariant Holds(buf[..], m, now, buflen) && now == stored + Packed(xs[..i]) && at == HEAD + |now|
      invariant count == Short(i)
      invariant i == 0 || at < buflen
    {
      assert xs[..i + 1][..i] == xs[..i];
      assert Packed(xs[..i + 1]) == Packed(xs[..i]) + xs[i];
      var more := PutPart(buf, at, xs[i], buflen, m, now);
      if !more {
        PackedPrefix(xs, i + 1);
        return false, at, count, now;
      }
      ShortCounts(i);
      assert now + xs[i] == stored + Packed(xs[..i + 1]);
      at, count, now := at + |xs[i]|, NextShort(count), now + xs[i];
    }
    assert xs[..|xs|] == xs;
    ok := true;
  }

  /** Name, aliases, addresses, with the cursor recorded between them. */
  method PutParts(buf: array<byte>, h: Hostent, buflen: i32)
    returns (ok: bool, aliasesAt: nat, aliases: int, addrsAt: nat, addrs: int, at: nat, ghost stored: seq<byte>)
    requires buflen <= buf.Length && HEAD <= buf.Length
    modifies buf
    ensures ok <==> Fits(h, buflen)
    ensures Holds(buf[..], old(buf[..]), stored, buflen)
    ensures ok ==> && stored == Body(h) && aliasesAt == AliasesAt(h) && addrsAt == AddrsAt(h) && at == Total(h)
                   && aliases == Short(|ListOf(h.aliases)|) && addrs == Short(|ListOf(h.addrs)|)
  {
    ghost var m := buf[..];
    BodyParts(h);
    hide Strings, Packed, Splice, Short, Holds;
    stored := [];
    NothingHeld(m, buflen);
    ok, at := true, HEAD;
    aliasesAt, addrsAt, aliases, addrs := HEAD, HEAD, 0, 0;
    if h.name.Some? {
      var part := h.name.value + [0];
      ok := PutPart(buf, at, part, buflen, m, stored);
      if !ok {
        return;
      }
      at, stored := at + |part|, stored + part;
    }
    assert stored == NameBytes(h);
    aliasesAt := at;
    ok, at, aliases, stored := PutAliases(buf, at, ListOf(h.aliases), buflen, m, stored);
    if !ok {
      return;
    }
    addrsAt := at;
    ok, at, addrs, stored := PutAddrs(buf, at, ListOf(h.addrs), buflen, m, stored);
  }

  /**
    encode_hostent.  The running size checks amount to one test: it succeeds exactly when there is
    nothing to store or the whole encoding is shorter than `buflen`.  On success the buffer starts
    with the encoding and is otherwise as before; on failure only bytes between the header and
    `buflen` have changed.
   */
  method EncodeHostent(ht: Option<Hostent>, buf: array?<byte>, buflen: i32) returns (ret: int)
    requires ht.Some? ==> WellFormed(ht.value)
    requires buf != null ==> HEAD <= buf.Length && buflen <= buf.Length
    modifies buf
    ensures ht.None? || buf == null ==> ret == -RPC_EINVAL && (buf != null ==> buf[..] == old(buf[..]))
    ensures ht.Some? && buf != null ==>
              ret == if Fits(ht.value, buflen) then Total(ht.value) else -RPC_EOVERLONG
    ensures ht.Some? && buf != null && Fits(ht.value, buflen) ==>
              Total(ht.value) <= buf.Length && buf[..] == Splice(old(buf[..]), 0, Encoded(ht.value))
    ensures ht.Some? && buf != null && !Fits(ht.value, buflen) ==>
              exists stored :: Holds(buf[..], old(buf[..]), stored, buflen)
  {
    if ht.None? || buf == null {
      return -RPC_EINVAL;
    }
    hide Strings, Packed, NameBytes, Le16, Le32, Splice, Short, Fits;
    var h := ht.value;
    var ok, aliasesAt, aliases, addrsAt, addrs, at, stored := PutParts(buf, h, buflen);
    if !ok {
      return -RPC_EOVERLONG;
    }
    HeaderShorts(h);
    Memcpy(buf, 0, Header(HEAD, aliasesAt, aliases, addrs, h.addrtype, h.length, addrsAt));
    SplicePrefix(old(buf[..]), HeaderOf(h), Body(h));
    return at;
  }

  lemma NothingHeld(m: seq<byte>, buflen: int)
    requires HEAD <= |m|
    ensures Holds(m, m, [], buflen)
  {
  }

  /** The header stores the wrapped counters and the true ones alike. */
  lemma HeaderShorts(h: Hostent)
    requires WellFormed(h)
    ensures AliasesAt(h) < TWO31 && AddrsAt(h) < TWO31
    ensures HeaderOf(h) == Header(HEAD, AliasesAt(h), Short(|ListOf(h.aliases)|), Short(|ListOf(h.addrs)|),
                                  h.addrtype, h.length, AddrsAt(h))
  {
    BodyParts(h);
    Le16Short(|ListOf(h.aliases)|);
    Le16Short(|ListOf(h.addrs)|);
    hide Le16, Le32, Body, Strings, Packed, NameBytes, Short;
  }

  /**
    decode_hostent.  Both pointer tables live in one array of slots, eight bytes each, in front of
    the payload; the loops fill it in place and end each table with NULL.
   */
  method DecodeHostent(src: seq<byte>) returns (d: Decoded)
    requires |src| < TWO31
    ensures d == Decode(src)
  {
    hide Table, StrLen, I32At, I16At;
    if |src| < HEAD {
      return Err(-RPC_EINVAL);
    }
    var nameAt: int, aliasesAt: int, addrsAt: int := I32At(src, 0), I32At(src, 4), I32At(src, 20);
    if nameAt > aliasesAt || aliasesAt > addrsAt {
      return Err(-RPC_ECORRUPTED);
    }
    var na, nd, length := I16At(src, 8), I16At(src, 10), I32At(src, 16);
    if na < 0 || nd < 0 || length < 0 {
      return Undefined;
    }
    var payload := src[HEAD..];
    var slots := new Option<nat>[na + nd + 2](i => None);
    var base := PTR * (na + nd + 2);
    var at: nat := 0;
    var name := None;
    if nameAt != aliasesAt {
      name := Some(base);
      at := aliasesAt - nameAt;
    }
    at := FillAliases(slots, payload, base, at, na);
    ghost var aliases := slots[..na + 1];
    FillAddrs(slots, na + 1, base, at, length, nd);
    assert slots[..na + 1] == aliases;
    assert slots[na + 1..] == slots[na + 1..na + 1 + nd + 1];
    d := Ok(Block(name, slots[..na + 1], slots[na + 1..], payload, I32At(src, 12), length));
  }

  /** The alias loop: a pointer at the cursor, then past the string it points to. */
  method FillAliases(slots: array<Option<nat>>, payload: seq<byte>, base: nat, from: nat, n: nat) returns (at: nat)
    requires n < slots.Length
    modifies slots
    ensures at == AfterAliases(payload, from, n)
    ensures slots[..n + 1] == Table(base, AliasPtrs(payload, from, n))
    ensures slots[n + 1..] == old(slots[n + 1..])
  {
    hide StrLen, Table;
    at := from;
    ghost var ps := AliasPtrs(payload, from, n);
    for i := 0 to n
      invariant AfterAliases(payload, from, n) == AfterAliases(payload, at, n - i)
      invariant ps[i..] == AliasPtrs(payload, at, n - i)
      invariant forall k :: 0 <= k < i ==> slots[k] == Some(base + ps[k])
      invariant forall k :: n < k < slots.Length ==> slots[k] == old(slots[k])
    {
      assert ps[i] == at;
      slots[i] := Some(base + at);
      var len := CStrLen(payload, at);
      assert ps[i..][1..] == ps[i + 1..];
      at := at + len + 1;
    }
    slots[n] := None;
    TableIs(slots[..n + 1], base, ps);
  }

  /** The address loop: a pointer every `len` bytes. */
  method FillAddrs(slots: array<Option<nat>>, first: nat, base: nat, from: nat, len: nat, n: nat)
    requires first + n + 1 == slots.Length
    modifies slots
    ensures slots[first..] == Table(base, Strides(from, len, n))
    ensures slots[..first] == old(slots[..first])
  {
    hide Table;
    var at: nat := from;
    ghost var ps := Strides(from, len, n);
    for i := 0 to n
      invariant ps[i..] == Strides(at, len, n - i)
      invariant forall k :: 0 <= k < i ==> slots[first + k] == Some(base + ps[k])
      invariant forall k :: 0 <= k < first ==> slots[k] == old(slots[k])
    {
      assert ps[i] == at;
      slots[first + i] := Some(base + at);
      assert ps[i..][1..] == ps[i + 1..];
      at := at + len;
    }
    slots[first + n] := None;
    TableIs(slots[first..], base, ps);
  }

  lemma TableIs(t: seq<Option<nat>>, base: nat, ps: seq<nat>)
    requires |t| == |ps| + 1 && t[|ps|] == None && forall k :: 0 <= k < |ps| ==> t[k] == Some(base + ps[k])
    ensures t == Table(base, ps)
  {
  }
}
