/** The packed form of `struct hostent`: what is encoded, and what decoding lays out in memory. */
module Hostent {
  import opened Words
  import opened Wire

  /** sizeof(ihostent_t), and the size of a pointer */
  const HEAD: nat := 24
  const PTR: nat := 8

  /** `None` is a NULL pointer. */
  datatype Hostent = Hostent(
    name: Option<seq<byte>>,
    aliases: Option<seq<seq<byte>>>,
    addrtype: i32,
    length: nat,
    addrs: Option<seq<seq<byte>>>)

  function ListOf<T>(l: Option<seq<T>>): seq<T> {
    match l case None => [] case Some(x) => x
  }

  ghost predicate Uniform(xs: seq<seq<byte>>, len: nat) {
    forall i :: 0 <= i < |xs| ==> |xs[i]| == len
  }

  /** What a C caller owes: terminated strings and addresses of the announced length. */
  ghost predicate WellFormed(h: Hostent) {
    && (h.name.Some? ==> NulFree(h.name.value))
    && (forall i :: 0 <= i < |ListOf(h.aliases)| ==> NulFree(ListOf(h.aliases)[i]))
    && Uniform(ListOf(h.addrs), h.length)
    && h.length < TWO31 && Total(h) < TWO31
  }

  // ---------- the encoding ----------

  /** Strings, each with its terminator, end to end. */
  function Strings(ss: seq<seq<byte>>): seq<byte> {
    if ss == [] then [] else Strings(ss[..|ss| - 1]) + ss[|ss| - 1] + [0]
  }

  /** Addresses end to end. */
  function Packed(xs: seq<seq<byte>>): seq<byte> {
    if xs == [] then [] else Packed(xs[..|xs| - 1]) + xs[|xs| - 1]
  }

  function NameBytes(h: Hostent): seq<byte> {
    match h.name case None => [] case Some(s) => s + [0]
  }

  function Body(h: Hostent): seq<byte> {
    NameBytes(h) + Strings(ListOf(h.aliases)) + Packed(ListOf(h.addrs))
  }

  function Total(h: Hostent): nat {
    HEAD + |Body(h)|
  }

  function AliasesAt(h: Hostent): nat {
    HEAD + |NameBytes(h)|
  }

  function AddrsAt(h: Hostent): nat {
    AliasesAt(h) + |Strings(ListOf(h.aliases))|
  }

  /** ihostent_t: three indices into the buffer, two short counters, type and length. */
  function Header(nameAt: u32, aliasesAt: u32, aliases: int, addrs: int, addrtype: i32, length: u32, addrsAt: u32)
    : (s: seq<byte>)
    ensures |s| == HEAD
  {
    Le32(nameAt) + Le32(aliasesAt) + Le16(aliases) + Le16(addrs) + Le32(Wrap32(addrtype)) + Le32(length) + Le32(addrsAt)
  }

  function HeaderOf(h: Hostent): (s: seq<byte>)
    requires Total(h) < TWO31 && h.length < TWO31
    ensures |s| == HEAD
  {
    Header(HEAD, AliasesAt(h), |ListOf(h.aliases)|, |ListOf(h.addrs)|, h.addrtype, h.length, AddrsAt(h))
  }

  function Encoded(h: Hostent): (s: seq<byte>)
    requires Total(h) < TWO31 && h.length < TWO31
    ensures |s| == Total(h)
  {
    HeaderOf(h) + Body(h)
  }

  // ---------- the decoded block ----------

  /**
    What decode_hostent allocates behind the struct: a table of alias pointers, a table of address
    pointers, each ended by NULL, then the payload.  Pointers are byte offsets into the block.
   */
  datatype Block = Block(
    name: Option<nat>,
    aliases: seq<Option<nat>>,
    addrs: seq<Option<nat>>,
    payload: seq<byte>,
    addrtype: i32,
    length: i32)
  {
    /** Bytes taken by the two tables. */
    function Tables(): nat {
      PTR * (|aliases| + |addrs|)
    }

    function Size(): nat {
      Tables() + |payload|
    }
  }

  datatype Decoded =
    | Ok(block: Block)
    | Err(code: int)
    | Undefined                     // a negative counter sends the code outside its block

  /** Where the `n` alias pointers point, from cursor `at` on, relative to the payload. */
  function AliasPtrs(s: seq<byte>, at: nat, n: nat): (ps: seq<nat>)
    ensures |ps| == n
    decreases n
  {
    if n == 0 then [] else [at] + AliasPtrs(s, at + StrLen(s, at) + 1, n - 1)
  }

  /** The cursor after `n` aliases. */
  function AfterAliases(s: seq<byte>, at: nat, n: nat): nat
    decreases n
  {
    if n == 0 then at else AfterAliases(s, at + StrLen(s, at) + 1, n - 1)
  }

  /** Pointers `base + p`, then NULL. */
  function Table(base: nat, ps: seq<nat>): (t: seq<Option<nat>>)
    ensures |t| == |ps| + 1
  {
    seq(|ps|, i requires 0 <= i < |ps| => Some(base + ps[i])) + [None]
  }

  /** `n` pointers, one every `step` bytes. */
  function Strides(at: nat, step: nat, n: nat): (ps: seq<nat>)
    ensures |ps| == n
    decreases n
  {
    if n == 0 then [] else [at] + Strides(at + step, step, n - 1)
  }

  lemma HeaderFields(nameAt: u32, aliasesAt: u32, aliases: nat, addrs: nat, addrtype: i32, length: u32, addrsAt: u32,
                     rest: seq<byte>)
    ensures var s := Header(nameAt, aliasesAt, aliases, addrs, addrtype, length, addrsAt) + rest;
            && I32At(s, 0) == AsI32(nameAt) && I32At(s, 4) == AsI32(aliasesAt)
            && I16At(s, 8) == Short(aliases) && I16At(s, 10) == Short(addrs)
            && I32At(s, 12) == addrtype && I32At(s, 16) == AsI32(length) && I32At(s, 20) == AsI32(addrsAt)
            && s[HEAD..] == rest
  {
    var s := Header(nameAt, aliasesAt, aliases, addrs, addrtype, length, addrsAt) + rest;
    assert s[0..4] == Le32(nameAt);
    assert s[4..8] == Le32(aliasesAt);
    assert s[8..10] == Le16(aliases);
    assert s[10..12] == Le16(addrs);
    assert s[12..16] == Le32(Wrap32(addrtype));
    assert s[16..20] == Le32(length);
    assert s[20..24] == Le32(addrsAt);
    hide Le32, Le16, FromLe32, FromLe16, Wrap32, AsI32, Short;
    Le32RoundTrip(nameAt);
    Le32RoundTrip(aliasesAt);
    Le32RoundTrip(length);
    Le32RoundTrip(addrsAt);
    Le32RoundTrip(Wrap32(addrtype));
    SignedRoundTrip(addrtype);
    Le16RoundTrip(aliases);
    Le16RoundTrip(addrs);
  }

  /** decode_hostent on a buffer of exactly the received length. */
  function Decode(src: seq<byte>): Decoded {
    if |src| < HEAD then Err(-RPC_EINVAL)
    else if I32At(src, 0) > I32At(src, 4) || I32At(src, 4) > I32At(src, 20) then Err(-RPC_ECORRUPTED)
    else if I16At(src, 8) < 0 || I16At(src, 10) < 0 || I32At(src, 16) < 0 then Undefined
    else Ok(BlockOf(src[HEAD..], I32At(src, 4) - I32At(src, 0), I16At(src, 8), I16At(src, 10), I32At(src, 12), I32At(src, 16)))
  }

  /** The block laid out for a payload whose name takes `nameLen` bytes (none if there is no name). */
  function BlockOf(payload: seq<byte>, nameLen: nat, na: nat, nd: nat, addrtype: i32, length: nat): Block
    requires length < TWO31
  {
    var tables := PTR * (na + nd + 2);
    Block(if nameLen == 0 then None else Some(tables),
          Table(tables, AliasPtrs(payload, nameLen, na)),
          Table(tables, Strides(AfterAliases(payload, nameLen, na), length, nd)),
          payload, addrtype, length)
  }

  // ---------- reading the block through its pointers ----------

  /** The C string a pointer leads to. */
  function StrAt(b: Block, p: nat): seq<byte>
    requires b.Tables() <= p <= b.Size()
  {
    var at := p - b.Tables();
    b.payload[at..at + StrLen(b.payload, at)]
  }

  /** The `length` bytes a pointer leads to. */
  function AddrAt(b: Block, p: nat): seq<byte>
    requires 0 <= b.length && b.Tables() <= p && p + b.length <= b.Size()
  {
    b.payload[p - b.Tables()..p - b.Tables() + b.length]
  }

  /** Following every pointer of the block finds exactly the parts of `h`. */
  ghost predicate Shows(b: Block, h: Hostent) {
    && b.addrtype == h.addrtype && b.length == h.length
    && (h.name.None? <==> b.name.None?)
    && (h.name.Some? ==> b.Tables() <= b.name.value < b.Size() && StrAt(b, b.name.value) == h.name.value)
    && |b.aliases| == |ListOf(h.aliases)| + 1 && b.aliases[|ListOf(h.aliases)|] == None
    && (forall i :: 0 <= i < |ListOf(h.aliases)| ==>
          && b.aliases[i].Some? && b.Tables() <= b.aliases[i].value < b.Size()
          && StrAt(b, b.aliases[i].value) == ListOf(h.aliases)[i])
    && |b.addrs| == |ListOf(h.addrs)| + 1 && b.addrs[|ListOf(h.addrs)|] == None
    && (forall i :: 0 <= i < |ListOf(h.addrs)| ==>
          && b.addrs[i].Some? && b.Tables() <= b.addrs[i].value && b.addrs[i].value + h.length <= b.Size()
          && AddrAt(b, b.addrs[i].value) == ListOf(h.addrs)[i])
  }

  // ---------- walking the strings ----------

  lemma {:induction false} StringsPrefix(ss: seq<seq<byte>>, k: nat)
    requires k <= |ss|
    ensures Strings(ss[..k]) <= Strings(ss)
    decreases |ss|
  {
    if k == |ss| {
      assert ss[..k] == ss;
    } else {
      var n := |ss| - 1;
      StringsPrefix(ss[..n], k);
      assert ss[..n][..k] == ss[..k];
      assert Strings(ss) == Strings(ss[..n]) + (ss[n] + [0]);
    }
  }

  /** The `k`-th string starts after the first `k` and is followed by its terminator. */
  lemma StringAt(ss: seq<seq<byte>>, k: nat)
    requires k < |ss|
    ensures var at := |Strings(ss[..k])|;
            && at + |ss[k]| < |Strings(ss)|
            && Strings(ss)[at..at + |ss[k]|] == ss[k]
            && Strings(ss)[at + |ss[k]|] == 0
            && |Strings(ss[..k + 1])| == at + |ss[k]| + 1
  {
    StringsPrefix(ss, k + 1);
    var t := ss[..k + 1];
    assert t[..k] == ss[..k];
    assert Strings(t) == Strings(ss[..k]) + ss[k] + [0];
  }

  lemma {:induction false} PackedSize(xs: seq<seq<byte>>, len: nat)
    requires Uniform(xs, len)
    ensures |Packed(xs)| == |xs| * len
    decreases |xs|
  {
    if xs != [] {
      var n := |xs| - 1;
      PackedSize(xs[..n], len);
      assert (n + 1) * len == n * len + len;
    }
  }

  lemma {:induction false} PackedPrefix(xs: seq<seq<byte>>, k: nat)
    requires k <= |xs|
    ensures Packed(xs[..k]) <= Packed(xs)
    decreases |xs|
  {
    if k == |xs| {
      assert xs[..k] == xs;
    } else {
      var n := |xs| - 1;
      PackedPrefix(xs[..n], k);
      assert xs[..n][..k] == xs[..k];
    }
  }

  lemma AddressAt(xs: seq<seq<byte>>, len: nat, k: nat)
    requires k < |xs| && Uniform(xs, len)
    ensures k * len + len <= |Packed(xs)| == |xs| * len
    ensures Packed(xs)[k * len..k * len + len] == xs[k]
  {
    PackedSize(xs, len);
    PackedPrefix(xs, k + 1);
    var t := xs[..k + 1];
    assert t[..k] == xs[..k];
    PackedSize(xs[..k], len);
    PackedSize(t, len);
    assert Packed(t) == Packed(xs[..k]) + xs[k];
    assert (k + 1) * len == k * len + len;
  }

  // ---------- decoding what was encoded ----------

  /** strlen finds the `k`-th of packed strings. */
  lemma StrLenWithin(s: seq<byte>, at: nat, ss: seq<seq<byte>>, k: nat)
    requires Within(s, at, Strings(ss)) && k < |ss| && NulFree(ss[k])
    ensures var p := at + |Strings(ss[..k])|;
            && p < |s| && StrLen(s, p) == |ss[k]| && p + |ss[k]| < at + |Strings(ss)|
            && s[p..p + |ss[k]|] == ss[k]
            && p + |ss[k]| + 1 == at + |Strings(ss[..k + 1])|
  {
    StringAt(ss, k);
    var i, n := |Strings(ss[..k])|, |ss[k]|;
    WithinSub(s, at, Strings(ss), i, i + n);
    WithinSub(s, at, Strings(ss), i + n, i + n + 1);
    assert s[at + i + n] == s[at + (i + n)..at + (i + n + 1)][0] == Strings(ss)[i + n];
    assert forall j :: 0 <= j < n ==> s[at + i + j] == s[at + i..at + (i + n)][j] == ss[k][j];
    StrLenIs(s, at + i, n);
  }

  /** The alias loop visits every string in order and ends right behind the last. */
  lemma {:induction false} AliasWalk(s: seq<byte>, at: nat, ss: seq<seq<byte>>, k: nat)
    requires Within(s, at, Strings(ss)) && k <= |ss|
    requires forall i :: 0 <= i < |ss| ==> NulFree(ss[i])
    ensures forall i :: k <= i < |ss| ==>
              AliasPtrs(s, at + |Strings(ss[..k])|, |ss| - k)[i - k] == at + |Strings(ss[..i])|
    ensures AfterAliases(s, at + |Strings(ss[..k])|, |ss| - k) == at + |Strings(ss)|
    decreases |ss| - k
  {
    hide Strings, StrLen, Within, NulFree;
    if k == |ss| {
      assert ss[..k] == ss;
    } else {
      StrLenWithin(s, at, ss, k);
      AliasWalk(s, at, ss, k + 1);
      var p, q := at + |Strings(ss[..k])|, at + |Strings(ss[..k + 1])|;
      assert AliasPtrs(s, p, |ss| - k) == [p] + AliasPtrs(s, q, |ss| - k - 1);
    }
  }

  lemma {:induction false} StridesAt(at: nat, step: nat, n: nat, i: nat)
    requires i < n
    ensures Strides(at, step, n)[i] == at + i * step
    decreases n
  {
    if i > 0 {
      StridesAt(at + step, step, n - 1, i - 1);
      assert (i - 1) * step + step == i * step;
    }
  }

  lemma BodyParts(h: Hostent)
    ensures Within(Body(h), 0, NameBytes(h))
    ensures Within(Body(h), |NameBytes(h)|, Strings(ListOf(h.aliases)))
    ensures Within(Body(h), |NameBytes(h)| + |Strings(ListOf(h.aliases))|, Packed(ListOf(h.addrs)))
    ensures |Body(h)| == |NameBytes(h)| + |Strings(ListOf(h.aliases))| + |Packed(ListOf(h.addrs))|
  {
    hide Strings, Packed, NameBytes;
  }

  /** The block for the body of `h` when the counters did not wrap. */
  function Laid(h: Hostent): Block
    requires h.length < TWO31
  {
    BlockOf(Body(h), |NameBytes(h)|, |ListOf(h.aliases)|, |ListOf(h.addrs)|, h.addrtype, h.length)
  }

  lemma NameShown(h: Hostent)
    requires WellFormed(h) && h.name.Some?
    ensures var b := Laid(h);
            && b.name.Some? && b.Tables() <= b.name.value < b.Size() && StrAt(b, b.name.value) == h.name.value
  {
    BodyParts(h);
    var n := |h.name.value|;
    WithinSub(Body(h), 0, NameBytes(h), 0, n);
    WithinSub(Body(h), 0, NameBytes(h), n, n + 1);
    assert Body(h)[n] == Body(h)[0 + n..0 + (n + 1)][0] == 0;
    assert forall j :: 0 <= j < n ==> Body(h)[j] == Body(h)[0..0 + n][j] == h.name.value[j];
    StrLenIs(Body(h), 0, n);
    hide Body, Strings, Packed, AliasPtrs, AfterAliases, Strides, StrLen;
  }

  lemma TableEntry(base: nat, ps: seq<nat>, i: nat)
    requires i < |ps|
    ensures Table(base, ps)[i] == Some(base + ps[i])
  {
  }

  /** Where the loops put their pointers, relative to the payload. */
  lemma Pointers(h: Hostent)
    requires WellFormed(h)
    ensures var ss, xs, at := ListOf(h.aliases), ListOf(h.addrs), |NameBytes(h)|;
            && AfterAliases(Body(h), at, |ss|) == at + |Strings(ss)|
            && (forall i :: 0 <= i < |ss| ==> AliasPtrs(Body(h), at, |ss|)[i] == at + |Strings(ss[..i])|)
            && (forall i :: 0 <= i < |xs| ==>
                  Strides(at + |Strings(ss)|, h.length, |xs|)[i] == at + |Strings(ss)| + i * h.length)
  {
    hide Body, Strings, Packed, AliasPtrs, AfterAliases, Strides, StrLen, NameBytes, Within;
    var ss, xs, at := ListOf(h.aliases), ListOf(h.addrs), |NameBytes(h)|;
    BodyParts(h);
    assert ss[..0] == [];
    NoStrings();
    AliasWalk(Body(h), at, ss, 0);
    forall i | 0 <= i < |xs|
      ensures Strides(at + |Strings(ss)|, h.length, |xs|)[i] == at + |Strings(ss)| + i * h.length
    {
      StridesAt(at + |Strings(ss)|, h.length, |xs|, i);
    }
  }

  lemma NoStrings()
    ensures Strings([]) == []
  {
  }

  lemma AliasShown(h: Hostent, i: nat)
    requires WellFormed(h) && i < |ListOf(h.aliases)|
    ensures var b := Laid(h);
            && b.aliases[i].Some? && b.Tables() <= b.aliases[i].value < b.Size()
            && StrAt(b, b.aliases[i].value) == ListOf(h.aliases)[i]
  {
    hide Body, Strings, Packed, AliasPtrs, AfterAliases, Strides, StrLen, NameBytes, Table;
    var ss, at := ListOf(h.aliases), |NameBytes(h)|;
    BodyParts(h);
    Pointers(h);
    StrLenWithin(Body(h), at, ss, i);
    TableEntry(Laid(h).Tables(), AliasPtrs(Body(h), at, |ss|), i);
  }

  lemma AddrShown(h: Hostent, i: nat)
    requires WellFormed(h) && i < |ListOf(h.addrs)|
    ensures var b := Laid(h);
            && b.addrs[i].Some? && b.Tables() <= b.addrs[i].value && b.addrs[i].value + h.length <= b.Size()
            && AddrAt(b, b.addrs[i].value) == ListOf(h.addrs)[i]
  {
    hide Body, Strings, Packed, AliasPtrs, AfterAliases, Strides, StrLen, NameBytes, Table;
    var ss, xs, at := ListOf(h.aliases), ListOf(h.addrs), |NameBytes(h)|;
    BodyParts(h);
    Pointers(h);
    var from, off := at + |Strings(ss)|, i * h.length;
    AddressAt(xs, h.length, i);
    WithinSub(Body(h), from, Packed(xs), off, off + h.length);
    TableEntry(Laid(h).Tables(), Strides(from, h.length, |xs|), i);
  }

  lemma LaidShows(h: Hostent)
    requires WellFormed(h)
    ensures Shows(Laid(h), h)
  {
    if h.name.Some? {
      NameShown(h);
    }
    forall i | 0 <= i < |ListOf(h.aliases)|
      ensures var b := Laid(h);
              && b.aliases[i].Some? && b.Tables() <= b.aliases[i].value < b.Size()
              && StrAt(b, b.aliases[i].value) == ListOf(h.aliases)[i]
    {
      AliasShown(h, i);
    }
    forall i | 0 <= i < |ListOf(h.addrs)|
      ensures var b := Laid(h);
              && b.addrs[i].Some? && b.Tables() <= b.addrs[i].value && b.addrs[i].value + h.length <= b.Size()
              && AddrAt(b, b.addrs[i].value) == ListOf(h.addrs)[i]
    {
      AddrShown(h, i);
    }
    hide Body, Strings, Packed, AliasPtrs, AfterAliases, Strides, StrAt, AddrAt;
  }

  /** The two short counters hold the true counts. */
  predicate CountersHold(h: Hostent) {
    |ListOf(h.aliases)| < 0x8000 && |ListOf(h.addrs)| < 0x8000
  }

  lemma ShortExact(n: nat)
    ensures Short(n) == n <==> n < 0x8000
    ensures Short(n) <= n
  {
  }

  lemma DecodedHeader(h: Hostent)
    requires WellFormed(h)
    ensures var src := Encoded(h);
            && I32At(src, 0) == HEAD && I32At(src, 4) == AliasesAt(h) && I32At(src, 20) == AddrsAt(h)
            && I16At(src, 8) == Short(|ListOf(h.aliases)|) && I16At(src, 10) == Short(|ListOf(h.addrs)|)
            && I32At(src, 12) == h.addrtype && I32At(src, 16) == h.length && src[HEAD..] == Body(h)
  {
    BodyParts(h);
    hide Header, Body, Strings, Packed, NameBytes, I32At, I16At;
    HeaderFields(HEAD, AliasesAt(h), |ListOf(h.aliases)|, |ListOf(h.addrs)|, h.addrtype, h.length, AddrsAt(h), Body(h));
  }

  /**
    decode(encode(h)): following the pointers of the decoded block gives back the name (absent
    kept apart from empty), the aliases and the addresses, exactly when neither count reaches 2^15.
   */
  lemma RoundTripExactly(h: Hostent)
    requires WellFormed(h)
    ensures (Decode(Encoded(h)).Ok? && Shows(Decode(Encoded(h)).block, h)) <==> CountersHold(h)
  {
    DecodedHeader(h);
    ShortExact(|ListOf(h.aliases)|);
    ShortExact(|ListOf(h.addrs)|);
    if CountersHold(h) {
      LaidShows(h);
    }
    hide Header, Body, Strings, Packed, NameBytes, I32At, I16At, Short, AliasPtrs, AfterAliases, Strides, StrAt, AddrAt;
  }

  /**
    The block made from an encoded buffer of `buflen` bytes: alias table, address table and
    payload fill the allocation one after the other, the alias loop ends at the recorded address
    index, and the address loop at the end of the payload.
   */
  lemma LayoutExact(h: Hostent)
    requires WellFormed(h) && CountersHold(h)
    ensures Decode(Encoded(h)) == Ok(Laid(h))
    ensures var b, na, nd := Laid(h), |ListOf(h.aliases)|, |ListOf(h.addrs)|;
            && PTR * |b.aliases| == PTR * (na + 1)                          // the address table starts here
            && PTR * |b.aliases| + PTR * |b.addrs| == PTR * (na + nd + 2)   // the payload starts here
            && b.Size() == Total(h) + PTR * (na + nd + 2) - HEAD            // and ends with the allocation
            && HEAD + AfterAliases(b.payload, |NameBytes(h)|, na) == AddrsAt(h) == I32At(Encoded(h), 20)
            && AfterAliases(b.payload, |NameBytes(h)|, na) + nd * h.length == |b.payload|
  {
    DecodedHeader(h);
    ShortExact(|ListOf(h.aliases)|);
    ShortExact(|ListOf(h.addrs)|);
    BodyParts(h);
    Pointers(h);
    PackedSize(ListOf(h.addrs), h.length);
    hide Header, Body, Strings, Packed, NameBytes, I32At, I16At, Short, AliasPtrs, AfterAliases, Strides;
  }

  // ---------- the encoding byte by byte ----------

  /** Lengths of strings with one terminator each. */
  function Terminated(ss: seq<seq<byte>>): nat {
    if ss == [] then 0 else Terminated(ss[..|ss| - 1]) + |ss[|ss| - 1]| + 1
  }

  /** Bytes a name takes: none without a name. */
  function NameRoom(name: Option<seq<byte>>): nat {
    if name.None? then 0 else |name.value| + 1
  }

  lemma {:induction false} TerminatedSize(ss: seq<seq<byte>>)
    ensures |Strings(ss)| == Terminated(ss)
    decreases |ss|
  {
    if ss != [] {
      TerminatedSize(ss[..|ss| - 1]);
    }
  }

  /** Length of the encoding, and the seven fields of the header at their offsets. */
  lemma WireHeader(h: Hostent)
    requires WellFormed(h)
    ensures var (s, ss, xs) := (Encoded(h), ListOf(h.aliases), ListOf(h.addrs));
            && |s| == 24 + NameRoom(h.name) + Terminated(ss) + |xs| * h.length
            && I32At(s, 0) == 24 && I32At(s, 4) == 24 + NameRoom(h.name)
            && I16At(s, 8) == Short(|ss|) && I16At(s, 10) == Short(|xs|)
            && I32At(s, 12) == h.addrtype && I32At(s, 16) == h.length
            && I32At(s, 20) == 24 + NameRoom(h.name) + Terminated(ss)
  {
    DecodedHeader(h);
    BodyParts(h);
    TerminatedSize(ListOf(h.aliases));
    PackedSize(ListOf(h.addrs), h.length);
    hide Header, Body, Strings, Packed, I32At, I16At, Short;
  }

  lemma EncodedPart(h: Hostent, at: nat, part: seq<byte>)
    requires WellFormed(h) && Within(Body(h), at, part)
    ensures Within(Encoded(h), HEAD + at, part)
  {
    hide Body, HeaderOf;
    var s := Encoded(h);
    assert s[HEAD + at..HEAD + at + |part|] == Body(h)[at..at + |part|];
  }

  lemma PartOf(s: seq<byte>, at: nat, whole: seq<byte>, i: nat, part: seq<byte>)
    requires Within(s, at, whole) && i + |part| <= |whole| && whole[i..i + |part|] == part
    ensures Within(s, at + i, part)
  {
    WithinSub(s, at, whole, i, i + |part|);
  }

  /** Behind the header come the name and one zero, if there is a name. */
  lemma WireName(h: Hostent)
    requires WellFormed(h) && h.name.Some?
    ensures Within(Encoded(h), 24, h.name.value + [0])
  {
    BodyParts(h);
    EncodedPart(h, 0, NameBytes(h));
  }

  /** Right behind it the aliases, each with one zero, the next right behind the one before. */
  lemma WireAlias(h: Hostent, k: nat)
    requires WellFormed(h) && k < |ListOf(h.aliases)|
    ensures Within(Encoded(h), 24 + NameRoom(h.name) + Terminated(ListOf(h.aliases)[..k]), ListOf(h.aliases)[k] + [0])
  {
    hide Body, HeaderOf, Strings;
    var ss := ListOf(h.aliases);
    BodyParts(h);
    EncodedPart(h, |NameBytes(h)|, Strings(ss));
    StringAt(ss, k);
    TerminatedSize(ss[..k]);
    var at := |Strings(ss[..k])|;
    assert Strings(ss)[at..at + |ss[k] + [0]|] == ss[k] + [0];
    PartOf(Encoded(h), HEAD + |NameBytes(h)|, Strings(ss), at, ss[k] + [0]);
  }

  /** Right behind them the addresses, end to end. */
  lemma WireAddress(h: Hostent, k: nat)
    requires WellFormed(h) && k < |ListOf(h.addrs)|
    ensures Within(Encoded(h), 24 + NameRoom(h.name) + Terminated(ListOf(h.aliases)) + Times(k, h.length),
                   ListOf(h.addrs)[k])
  {
    hide Body, HeaderOf, Strings, Packed;
    var ss, xs := ListOf(h.aliases), ListOf(h.addrs);
    BodyParts(h);
    var at := |NameBytes(h)| + |Strings(ss)|;
    EncodedPart(h, at, Packed(xs));
    AddressAt(xs, h.length, k);
    TerminatedSize(ss);
    PartOf(Encoded(h), HEAD + at, Packed(xs), Times(k, h.length), xs[k]);
  }

  /** Which inputs are refused, with which code, and which are followed. */
  lemma DecodeRefuses(src: seq<byte>)
    ensures Decode(src) == Err(-3005) <==> |src| < 24
    ensures Decode(src) == Err(-3003) <==>
              |src| >= 24 && !(I32At(src, 0) <= I32At(src, 4) <= I32At(src, 20))
    ensures Decode(src).Ok? <==>
              && |src| >= 24 && I32At(src, 0) <= I32At(src, 4) <= I32At(src, 20)
              && I16At(src, 8) >= 0 && I16At(src, 10) >= 0 && I32At(src, 16) >= 0
  {
    hide I32At, I16At;
  }

  // ---------- when the encoder accepts ----------

  /** Nothing to store behind the header. */
  predicate NoParts(h: Hostent) {
    h.name.None? && ListOf(h.aliases) == [] && ListOf(h.addrs) == []
  }

  /** The one-shot size test the running checks amount to. */
  predicate Fits(h: Hostent, buflen: int) {
    NoParts(h) || Total(h) < buflen
  }

  /** The test in lengths of the parts. */
  lemma FitsMeans(h: Hostent, buflen: int)
    requires WellFormed(h)
    ensures Fits(h, buflen) <==>
            || (h.name.None? && ListOf(h.aliases) == [] && ListOf(h.addrs) == [])
            || 24 + NameRoom(h.name) + Terminated(ListOf(h.aliases)) + |ListOf(h.addrs)| * h.length < buflen
  {
    BodyParts(h);
    TerminatedSize(ListOf(h.aliases));
    PackedSize(ListOf(h.addrs), h.length);
    hide Body, Strings, Packed;
  }

  /** In a buffer of 432 bytes, with addresses of positive length, neither short counter can wrap. */
  lemma ReplyBufferSafe(h: Hostent)
    requires WellFormed(h) && 0 < h.length && Fits(h, 432)
    ensures CountersHold(h)
  {
    BodyParts(h);
    PackedSize(ListOf(h.addrs), h.length);
    StringsSize(ListOf(h.aliases));
    assert |ListOf(h.addrs)| <= |ListOf(h.addrs)| * h.length by {
      MulAtLeast(|ListOf(h.addrs)|, h.length);
    }
    hide Body, Strings, Packed, NameBytes;
  }

  lemma {:induction false} StringsSize(ss: seq<seq<byte>>)
    ensures |ss| <= |Strings(ss)|
    decreases |ss|
  {
    if ss != [] {
      StringsSize(ss[..|ss| - 1]);
    }
  }
}
