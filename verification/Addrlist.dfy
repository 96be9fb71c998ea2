/** The packed form of a `struct addrinfo` list and when decoding gives the list back. */
module Addrlist {
  import opened Words
  import opened Wire
  import opened Tally

  const HLEN: nat := 20   // sizeof(iaddrinfo_t) - sizeof(int)

  /** One list node; `None` is a NULL pointer. */
  datatype Addrinfo = Addrinfo(
    flags: i32, family: i32, socktype: i32, protocol: i32, addrlen: u32,
    addr: Option<seq<byte>>, canon: Option<seq<byte>>)

  /** What a C caller owes: addresses of the announced length and terminated names. */
  ghost predicate Sound(e: Addrinfo) {
    && (e.addr.Some? ==> |e.addr.value| == e.addrlen)
    && (e.canon.Some? ==> NulFree(e.canon.value))
  }

  /** Length of the name with its terminator, zero without a name. */
  function CanonLen(e: Addrinfo): nat {
    match e.canon case None => 0 case Some(s) => |s| + 1
  }

  function CanonBytes(e: Addrinfo): (s: seq<byte>)
    ensures |s| == CanonLen(e)
  {
    match e.canon case None => [] case Some(s) => s + [0]
  }

  /** The address is copied only if there is one. */
  function AddrBytes(e: Addrinfo): seq<byte> {
    if e.addr.Some? && e.addrlen > 0 then e.addr.value else []
  }

  /** The length the encoder counts for a node, with or without an address to copy. */
  function Counted(e: Addrinfo): nat {
    HLEN + e.addrlen + 4 + CanonLen(e)
  }

  function Prefix(e: Addrinfo): (s: seq<byte>)
    requires CanonLen(e) < TWO31
    ensures |s| == HLEN + 4
  {
    Le32(Wrap32(e.flags)) + Le32(Wrap32(e.family)) + Le32(Wrap32(e.socktype)) + Le32(Wrap32(e.protocol))
    + Le32(e.addrlen) + Le32(CanonLen(e))
  }

  function Node(e: Addrinfo): seq<byte>
    requires CanonLen(e) < TWO31
  {
    Prefix(e) + AddrBytes(e) + CanonBytes(e)
  }

  function CountedAll(l: seq<Addrinfo>): nat {
    if l == [] then 0 else Counted(l[0]) + CountedAll(l[1..])
  }

  lemma {:induction false} CountedEach(l: seq<Addrinfo>, k: nat)
    requires k < |l|
    ensures Counted(l[k]) <= CountedAll(l)
    decreases k
  {
    if k > 0 {
      CountedEach(l[1..], k - 1);
    }
  }

  ghost predicate SoundList(l: seq<Addrinfo>) {
    && CountedAll(l) < TWO31
    && forall k :: 0 <= k < |l| ==> Sound(l[k])
  }

  function Nodes(l: seq<Addrinfo>): seq<byte>
    requires CountedAll(l) < TWO31
  {
    if l == [] then [] else Node(l[0]) + Nodes(l[1..])
  }

  /** Every node has an address or announces none. */
  predicate Addressed(e: Addrinfo) {
    e.addr.Some? || e.addrlen == 0
  }

  // ---------- decoding ----------

  datatype NodeResult = Got(e: Addrinfo, next: nat) | TooLong

  /**
    Every exit for lack of room frees the list with a node already linked whose next and name
    pointers were never set: what the call does then is undefined.
   */
  datatype ListResult = Ok(list: seq<Addrinfo>) | Undefined

  /** One turn of the decoding loop at cursor `at`; `buf` is the memory, `buflen` the stated length. */
  function DecodeNode(buf: seq<byte>, at: nat, buflen: nat): NodeResult
    requires buflen <= |buf|
  {
    if at + HLEN >= buflen then TooLong
    else if at + HLEN + 4 >= buflen then TooLong
    else
      var addrlen := FromLe32(buf[at + 16..at + 20]);
      var aclen := I32At(buf, at + 20);
      var from := at + HLEN + 4;
      if addrlen > 0 && from + addrlen >= buflen then TooLong
      else
        var bi := from + addrlen;
        var e := Addrinfo(I32At(buf, at), I32At(buf, at + 4), I32At(buf, at + 8), I32At(buf, at + 12), addrlen,
                          Some(buf[from..bi]),
                          if aclen > 0 then Some(buf[bi..bi + StrLen(buf, bi)]) else None);
        Got(e, if aclen > 0 then bi + aclen else bi)
  }

  function DecodeFrom(buf: seq<byte>, at: nat, cnt: nat, buflen: nat): ListResult
    requires buflen <= |buf|
    decreases cnt
  {
    if cnt == 0 then Ok([])
    else match DecodeNode(buf, at, buflen)
      case TooLong => Undefined
      case Got(e, next) =>
        match DecodeFrom(buf, next, cnt - 1, buflen)
        case Undefined => Undefined
        case Ok(l) => Ok([e] + l)
  }

  /** The decoder always supplies an address pointer, also for length zero. */
  function Normal(e: Addrinfo): Addrinfo {
    if e.addrlen == 0 then e.(addr := Some([])) else e
  }

  function NormalAll(l: seq<Addrinfo>): (r: seq<Addrinfo>)
    ensures |r| == |l|
  {
    if l == [] then [] else [Normal(l[0])] + NormalAll(l[1..])
  }

  // ---------- one node ----------

  lemma PrefixFields(e: Addrinfo, rest: seq<byte>)
    requires CanonLen(e) < TWO31
    ensures var s := Prefix(e) + rest;
            && I32At(s, 0) == e.flags && I32At(s, 4) == e.family && I32At(s, 8) == e.socktype
            && I32At(s, 12) == e.protocol && FromLe32(s[16..20]) == e.addrlen && I32At(s, 20) == CanonLen(e)
  {
    var s := Prefix(e) + rest;
    assert s[0..4] == Le32(Wrap32(e.flags));
    assert s[4..8] == Le32(Wrap32(e.family));
    assert s[8..12] == Le32(Wrap32(e.socktype));
    assert s[12..16] == Le32(Wrap32(e.protocol));
    assert s[16..20] == Le32(e.addrlen);
    assert s[20..24] == Le32(CanonLen(e));
    hide Le32, FromLe32, Wrap32;
    Le32RoundTrip(Wrap32(e.flags));
    Le32RoundTrip(Wrap32(e.family));
    Le32RoundTrip(Wrap32(e.socktype));
    Le32RoundTrip(Wrap32(e.protocol));
    Le32RoundTrip(e.addrlen);
    Le32RoundTrip(CanonLen(e));
    SignedRoundTrip(e.flags);
    SignedRoundTrip(e.family);
    SignedRoundTrip(e.socktype);
    SignedRoundTrip(e.protocol);
  }

  lemma NodeFields(buf: seq<byte>, at: nat, e: Addrinfo)
    requires CanonLen(e) < TWO31 && Within(buf, at, Node(e))
    ensures |Node(e)| == HLEN + 4 + |AddrBytes(e)| + CanonLen(e)
    ensures I32At(buf, at) == e.flags && I32At(buf, at + 4) == e.family && I32At(buf, at + 8) == e.socktype
    ensures I32At(buf, at + 12) == e.protocol && FromLe32(buf[at + 16..at + 20]) == e.addrlen
    ensures I32At(buf, at + 20) == CanonLen(e)
    ensures Within(buf, at + HLEN + 4, AddrBytes(e))
    ensures Within(buf, at + HLEN + 4 + |AddrBytes(e)|, CanonBytes(e))
  {
    var n := Node(e);
    PrefixFields(e, AddrBytes(e) + CanonBytes(e));
    assert n == Prefix(e) + (AddrBytes(e) + CanonBytes(e));
    hide Prefix, AddrBytes, CanonBytes, FromLe32, AsI32;
    WithinSub(buf, at, n, 0, 4);
    WithinSub(buf, at, n, 4, 8);
    WithinSub(buf, at, n, 8, 12);
    WithinSub(buf, at, n, 12, 16);
    WithinSub(buf, at, n, 16, 20);
    WithinSub(buf, at, n, 20, 24);
    NodeTail(buf, at, e);
  }

  lemma NodeTail(buf: seq<byte>, at: nat, e: Addrinfo)
    requires CanonLen(e) < TWO31 && Within(buf, at, Node(e))
    ensures Within(buf, at + HLEN + 4, AddrBytes(e))
    ensures Within(buf, at + HLEN + 4 + |AddrBytes(e)|, CanonBytes(e))
  {
    hide Prefix, AddrBytes, CanonBytes;
    var n, a, c := Node(e), |AddrBytes(e)|, |CanonBytes(e)|;
    WithinSub(buf, at, n, HLEN + 4, HLEN + 4 + a);
    WithinSub(buf, at, n, HLEN + 4 + a, HLEN + 4 + a + c);
    assert n[HLEN + 4..HLEN + 4 + a] == AddrBytes(e);
    assert n[HLEN + 4 + a..HLEN + 4 + a + c] == CanonBytes(e);
  }

  lemma CanonFound(buf: seq<byte>, at: nat, e: Addrinfo)
    requires Within(buf, at, CanonBytes(e)) && e.canon.Some? && NulFree(e.canon.value)
    ensures buf[at..at + StrLen(buf, at)] == e.canon.value
  {
    var n := |e.canon.value|;
    WithinSub(buf, at, CanonBytes(e), 0, n);
    WithinSub(buf, at, CanonBytes(e), n, n + 1);
    assert buf[at + n] == buf[at + n..at + (n + 1)][0] == 0;
    assert forall j :: 0 <= j < n ==> buf[at + j] == buf[at..at + n][j] == e.canon.value[j];
    StrLenIs(buf, at, n);
  }

  /** On an encoded node the checks amount to one: the stated length must exceed the end of the address. */
  lemma NodeDecoded(buf: seq<byte>, at: nat, e: Addrinfo, buflen: nat)
    requires Sound(e) && Addressed(e) && Counted(e) < TWO31
    requires Within(buf, at, Node(e)) && buflen <= |buf|
    ensures DecodeNode(buf, at, buflen) ==
            if at + HLEN + 4 + e.addrlen < buflen then Got(Normal(e), at + |Node(e)|) else TooLong
  {
    hide Node, Prefix, CanonBytes, I32At, FromLe32, StrLen, NulFree;
    NodeFields(buf, at, e);
    assert |AddrBytes(e)| == e.addrlen;
    if e.canon.Some? {
      CanonFound(buf, at + HLEN + 4 + e.addrlen, e);
    }
  }

  // ---------- the list ----------

  predicate AllAddressed(l: seq<Addrinfo>) {
    forall k :: 0 <= k < |l| ==> Addressed(l[k])
  }

  /** Where the address of the last node ends in the encoding. */
  function LastAddrEnd(l: seq<Addrinfo>): int
    requires l != [] && CountedAll(l) < TWO31
  {
    |Nodes(l)| - CanonLen(l[|l| - 1])
  }

  lemma NodeSize(e: Addrinfo)
    requires Sound(e) && CanonLen(e) < TWO31
    ensures |Node(e)| == HLEN + 4 + |AddrBytes(e)| + CanonLen(e)
    ensures |AddrBytes(e)| == if Addressed(e) then e.addrlen else 0
  {
  }

  /** The nodes of the tail follow the first node; the last address ends behind everything before it. */
  lemma ListParts(buf: seq<byte>, at: nat, l: seq<Addrinfo>)
    requires l != [] && SoundList(l) && Within(buf, at, Nodes(l))
    ensures CountedAll(l[1..]) < TWO31 && SoundList(l[1..])
    ensures Within(buf, at, Node(l[0])) && Within(buf, at + |Node(l[0])|, Nodes(l[1..]))
    ensures |l| > 1 ==> LastAddrEnd(l) == |Node(l[0])| + LastAddrEnd(l[1..])
  {
    hide Node;
    var n, rest := Node(l[0]), Nodes(l[1..]);
    assert Nodes(l) == n + rest;
    WithinSub(buf, at, Nodes(l), 0, |n|);
    WithinSub(buf, at, Nodes(l), |n|, |n| + |rest|);
    assert Nodes(l)[0..|n|] == n && Nodes(l)[|n|..|n| + |rest|] == rest;
  }

  /** The prefix of the first node alone keeps the last address end positive. */
  lemma {:induction false} LastAddrPositive(l: seq<Addrinfo>)
    requires l != [] && SoundList(l)
    ensures HLEN + 4 <= LastAddrEnd(l)
    decreases |l|
  {
    NodeSize(l[0]);
    assert Nodes(l) == Node(l[0]) + Nodes(l[1..]);
    hide Node;
    if |l| > 1 {
      LastAddrPositive(l[1..]);
    } else {
      assert l[1..] == [];
    }
  }

  /** Decoding an encoded list of addressed nodes: all of it, or undefined, by one comparison. */
  lemma {:induction false} ListDecoded(buf: seq<byte>, at: nat, l: seq<Addrinfo>, buflen: nat)
    requires l != [] && SoundList(l) && AllAddressed(l)
    requires Within(buf, at, Nodes(l)) && buflen <= |buf|
    ensures DecodeFrom(buf, at, |l|, buflen) ==
            if at + LastAddrEnd(l) < buflen then Ok(NormalAll(l)) else Undefined
    decreases |l|
  {
    hide Node, Nodes, DecodeNode, DecodeFrom, Within, NormalAll, Normal;
    ListParts(buf, at, l);
    NodeSize(l[0]);
    CountedEach(l, 0);
    NodeDecoded(buf, at, l[0], buflen);
    DecodeStep(buf, at, |l|, buflen);
    NormalStep(l);
    if |l| == 1 {
      SingleNode(l);
      DecodeNone(buf, at + |Node(l[0])|, buflen);
    } else {
      LastAddrPositive(l[1..]);
      ListDecoded(buf, at + |Node(l[0])|, l[1..], buflen);
    }
  }

  lemma DecodeStep(buf: seq<byte>, at: nat, cnt: nat, buflen: nat)
    requires buflen <= |buf| && 0 < cnt
    ensures DecodeFrom(buf, at, cnt, buflen) ==
            match DecodeNode(buf, at, buflen)
            case TooLong => Undefined
            case Got(e, next) =>
              match DecodeFrom(buf, next, cnt - 1, buflen) case Undefined => Undefined case Ok(l) => Ok([e] + l)
  {
    hide DecodeNode;
  }

  lemma DecodeNone(buf: seq<byte>, at: nat, buflen: nat)
    requires buflen <= |buf|
    ensures DecodeFrom(buf, at, 0, buflen) == Ok([])
  {
  }

  lemma NormalStep(l: seq<Addrinfo>)
    requires l != []
    ensures NormalAll(l) == [Normal(l[0])] + NormalAll(l[1..])
    ensures |l| == 1 ==> NormalAll(l) == [Normal(l[0])] + []
  {
  }

  lemma SingleNode(l: seq<Addrinfo>)
    requires |l| == 1 && CountedAll(l) < TWO31
    ensures CanonLen(l[0]) < TWO31 && |Nodes(l)| == |Node(l[0])|
  {
    hide Node;
    assert l[1..] == [];
    assert Nodes(l) == Node(l[0]) + Nodes([]);
  }

  lemma {:induction false} AlwaysAddressed(buf: seq<byte>, at: nat, cnt: nat, buflen: nat)
    requires buflen <= |buf| && DecodeFrom(buf, at, cnt, buflen).Ok?
    ensures |DecodeFrom(buf, at, cnt, buflen).list| == cnt
    ensures forall k :: 0 <= k < cnt ==> DecodeFrom(buf, at, cnt, buflen).list[k].addr.Some?
    decreases cnt
  {
    if cnt > 0 {
      AlwaysAddressed(buf, DecodeNode(buf, at, buflen).next, cnt - 1, buflen);
      assert DecodeNode(buf, at, buflen).e.addr.Some?;
      hide DecodeNode;
    }
  }

  lemma {:induction false} NormalAt(l: seq<Addrinfo>, k: nat)
    requires k < |l|
    ensures NormalAll(l)[k] == Normal(l[k])
    decreases k
  {
    if k > 0 {
      NormalAt(l[1..], k - 1);
    }
  }

  /**
    decode(encode(l)) is `l` again (a missing address of length zero becoming an empty one) exactly
    when every node has an address or announces length zero, and the decoder's stated length
    exceeds the encoding without the canonical name of the last node.
   */
  lemma RoundTripExactly(buf: seq<byte>, l: seq<Addrinfo>, buflen: nat)
    requires l != [] && SoundList(l) && Within(buf, 0, Nodes(l)) && buflen <= |buf|
    ensures DecodeFrom(buf, 0, |l|, buflen) == Ok(NormalAll(l))
            <==> AllAddressed(l) && |Nodes(l)| - CanonLen(l[|l| - 1]) < buflen
  {
    if AllAddressed(l) {
      ListDecoded(buf, 0, l, buflen);
    } else {
      var k :| 0 <= k < |l| && !Addressed(l[k]);
      NormalAt(l, k);
      if DecodeFrom(buf, 0, |l|, buflen).Ok? {
        AlwaysAddressed(buf, 0, |l|, buflen);
      }
    }
  }

  /** A decoder given exactly the encoding gives the list if the last node carries a name, else is undefined. */
  lemma ExactFit(l: seq<Addrinfo>)
    requires l != [] && SoundList(l) && AllAddressed(l)
    ensures DecodeFrom(Nodes(l), 0, |l|, |Nodes(l)|) ==
            if l[|l| - 1].canon.Some? then Ok(NormalAll(l)) else Undefined
  {
    assert Within(Nodes(l), 0, Nodes(l)) by {
      assert Nodes(l)[0..0 + |Nodes(l)|] == Nodes(l);
    }
    ListDecoded(Nodes(l), 0, l, |Nodes(l)|);
  }

  // ---------- the encoding byte by byte ----------

  /** 24 bytes, the announced address, and a canonical name with one terminator. */
  function EntryLength(e: Addrinfo): nat {
    24 + e.addrlen + if e.canon.Some? then |e.canon.value| + 1 else 0
  }

  /** The reported length is the sum over the entries. */
  lemma {:induction false} CountedIsSum(l: seq<Addrinfo>)
    ensures CountedAll(l) == Sum(EntryLength, l)
    decreases |l|
  {
    if l != [] {
      CountedIsSum(l[1..]);
      SumHead(EntryLength, l);
    }
  }

  /**
    The bytes of an entry that has its address: five words and the length of the canonical name with
    its terminator, the address right behind them, and right behind it the name and one zero.
   */
  lemma WireEntry(e: Addrinfo)
    requires Sound(e) && Addressed(e) && EntryLength(e) < TWO31
    ensures CanonLen(e) < TWO31
    ensures var s := Node(e);
            && |s| == EntryLength(e)
            && I32At(s, 0) == e.flags && I32At(s, 4) == e.family && I32At(s, 8) == e.socktype
            && I32At(s, 12) == e.protocol && FromLe32(s[16..20]) == e.addrlen
            && I32At(s, 20) == (if e.canon.Some? then |e.canon.value| + 1 else 0)
            && (e.addr.Some? ==> s[24..24 + e.addrlen] == e.addr.value)
            && s[24 + e.addrlen..] == (if e.canon.Some? then e.canon.value + [0] else [])
  {
    var s := Node(e);
    assert Within(s, 0, s);
    NodeFields(s, 0, e);
    NodeSize(e);
    hide Node, Prefix, I32At, FromLe32;
    assert s[HLEN + 4 + e.addrlen..] == s[HLEN + 4 + e.addrlen..HLEN + 4 + e.addrlen + CanonLen(e)];
  }

  /** Entries follow each other without a gap. */
  lemma {:induction false} WireList(buf: seq<byte>, at: nat, l: seq<Addrinfo>, k: nat)
    requires SoundList(l) && AllAddressed(l) && k < |l| && Within(buf, at, Nodes(l))
    ensures CanonLen(l[k]) < TWO31 && Within(buf, at + Sum(EntryLength, l[..k]), Node(l[k]))
    decreases k
  {
    hide Node, Nodes, Within, Sum, CanonLen, EntryLength;
    ListParts(buf, at, l);
    if k == 0 {
      assert l[..0] == [];
      SumNothing(EntryLength);
    } else {
      WireList(buf, at + |Node(l[0])|, l[1..], k - 1);
      SumHead(EntryLength, l[..k]);
      assert l[..k][1..] == l[1..][..k - 1];
      EntrySize(l, 0);
    }
  }

  lemma EntrySize(l: seq<Addrinfo>, k: nat)
    requires SoundList(l) && AllAddressed(l) && k < |l|
    ensures CanonLen(l[k]) < TWO31 && |Node(l[k])| == EntryLength(l[k])
  {
    hide Node, CountedAll;
    CountedEach(l, k);
    NodeSize(l[k]);
  }

  /** A list whose entries all have an address comes back as it was. */
  lemma RoundTripIdentity(buf: seq<byte>, l: seq<Addrinfo>, buflen: nat)
    requires l != [] && SoundList(l) && Within(buf, 0, Nodes(l)) && |Nodes(l)| < buflen <= |buf|
    requires forall k :: 0 <= k < |l| ==> l[k].addr.Some?
    ensures DecodeFrom(buf, 0, |l|, buflen) == Ok(l)
  {
    RoundTripExactly(buf, l, buflen);
    hide Nodes, DecodeFrom;
    forall k | 0 <= k < |l|
      ensures NormalAll(l)[k] == l[k]
    {
      NormalAt(l, k);
    }
    assert NormalAll(l) == l;
  }

  /** A missing address of length zero comes back as an empty one, all else as it was. */
  lemma NormalMeans(e: Addrinfo)
    requires Sound(e)
    ensures Normal(e) == if e.addr.None? && e.addrlen == 0 then e.(addr := Some([])) else e
  {
  }

  /** The counted length is the length written exactly when every node is addressed. */
  lemma {:induction false} CountedExactly(l: seq<Addrinfo>)
    requires SoundList(l)
    ensures |Nodes(l)| <= CountedAll(l)
    ensures |Nodes(l)| == CountedAll(l) <==> AllAddressed(l)
    decreases |l|
  {
    if l != [] {
      NodeSize(l[0]);
      CountedExactly(l[1..]);
      hide Node;
      assert forall k :: 0 <= k < |l| - 1 ==> l[1..][k] == l[k + 1];
      if !AllAddressed(l[1..]) {
        var k :| 0 <= k < |l| - 1 && !Addressed(l[1..][k]);
        assert !Addressed(l[k + 1]);
      }
    }
  }
}
