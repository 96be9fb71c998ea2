/** encode_addrlist and decode_addrlist, step by step over a buffer. */
module AddrlistCodec {
  import opened Words
  import opened Memory
  import opened Wire
  import opened Addrlist

  /** The length pass. */
  method CountLength(l: seq<Addrinfo>) returns (len: nat)
    ensures len == CountedAll(l)
  {
    len := 0;
    for i := 0 to |l|
      invariant CountedAll(l) == len + CountedAll(l[i..])
    {
      assert l[i..][1..] == l[i + 1..];
      len := len + HLEN + l[i].addrlen + 4;
      if l[i].canon.Some? {
        len := len + |l[i].canon.value| + 1;
      }
    }
    assert l[|l|..] == [];
  }

  /** One node: the fixed part with the name length, the address if there is one, the name. */
  method PutNode(buf: array<byte>, at: nat, e: Addrinfo) returns (next: nat)
    requires Sound(e) && CanonLen(e) < TWO31 && at + |Node(e)| <= buf.Length
    modifies buf
    ensures buf[..] == Splice(old(buf[..]), at, Node(e)) && next == at + |Node(e)|
  {
    hide Prefix, Splice, CanonLen;
    ghost var m := buf[..];
    NodeSize(e);
    Memcpy(buf, at, Prefix(e));
    next := at + HLEN + 4;
    ghost var stored := Prefix(e);
    if e.addr.Some? && e.addrlen > 0 {
      Memcpy(buf, next, e.addr.value);
      SpliceAppend(m, at, stored, e.addr.value);
      stored, next := stored + e.addr.value, next + e.addrlen;
    } else {
      assert stored + [] == stored;
    }
    assert stored == Prefix(e) + AddrBytes(e);
    if e.canon.Some? {
      Memcpy(buf, next, e.canon.value + [0]);
      SpliceAppend(m, at, stored, e.canon.value + [0]);
      next := next + |e.canon.value| + 1;
    } else {
      assert stored + [] == stored;
    }
  }

  /**
    encode_addrlist: refused for a NULL argument or when the counted length exceeds the capacity;
    else the nodes are written from the start of the buffer, their number is returned and the
    counted length is reported.
   */
  method EncodeAddrlist(ai: seq<Addrinfo>, buf: array?<byte>, capacity: Option<nat>) returns (ret: int, buflen: Option<nat>)
    requires SoundList(ai)
    requires buf != null && capacity.Some? ==> capacity.value <= buf.Length
    modifies buf
    ensures ai == [] || buf == null || capacity.None? ==> ret == -RPC_EINVAL && buflen == capacity
    ensures ai != [] && buf != null && capacity.Some? && CountedAll(ai) > capacity.value ==>
              ret == -RPC_EOVERLONG && buflen == capacity
    ensures ret < 0 && buf != null ==> buf[..] == old(buf[..])
    ensures ai != [] && buf != null && capacity.Some? && CountedAll(ai) <= capacity.value ==>
              && ret == |ai| && buflen == Some(CountedAll(ai))
              && |Nodes(ai)| <= buf.Length && buf[..] == Splice(old(buf[..]), 0, Nodes(ai))
  {
    if ai == [] || buf == null || capacity.None? {
      return -RPC_EINVAL, capacity;
    }
    var len := CountLength(ai);
    if len > capacity.value {
      return -RPC_EOVERLONG, capacity;
    }
    CountedExactly(ai);
    hide Node, Splice;
    PutNodes(buf, ai);
    return |ai|, Some(len);
  }

  /** The copying pass. */
  method PutNodes(buf: array<byte>, l: seq<Addrinfo>)
    requires SoundList(l) && |Nodes(l)| <= buf.Length
    modifies buf
    ensures buf[..] == Splice(old(buf[..]), 0, Nodes(l))
  {
    hide Node;
    ghost var m, stored := buf[..], [];
    var at := 0;
    for i := 0 to |l|
      invariant CountedAll(l[i..]) < TWO31 && Nodes(l) == stored + Nodes(l[i..])
      invariant at == |stored| && buf[..] == Splice(m, 0, stored)
    {
      assert l[i..][1..] == l[i + 1..];
      ghost var n := Node(l[i]);
      assert stored + (n + Nodes(l[i + 1..])) == (stored + n) + Nodes(l[i + 1..]);
      at := PutNode(buf, at, l[i]);
      SpliceAppend(m, 0, stored, n);
      stored := stored + n;
    }
    assert l[|l|..] == [];
    assert stored + [] == stored;
  }

  /** One turn of the loop: room for the fixed part, its fields, room for the address, the name. */
  method ReadNode(buf: seq<byte>, at: nat, buflen: nat) returns (r: NodeResult)
    requires buflen <= |buf|
    ensures r == DecodeNode(buf, at, buflen)
  {
    hide I32At, FromLe32, StrLen;
    var bi := at;
    if bi + HLEN >= buflen {
      return TooLong;
    }
    var addrlen := FromLe32(buf[bi + 16..bi + 20]);
    var flags, family, socktype, protocol := I32At(buf, bi), I32At(buf, bi + 4), I32At(buf, bi + 8), I32At(buf, bi + 12);
    bi := bi + HLEN;
    if bi + 4 >= buflen {
      return TooLong;
    }
    var aclen := I32At(buf, bi);
    bi := bi + 4;
    var addr := [];
    if addrlen > 0 {
      if bi + addrlen >= buflen {
        return TooLong;
      }
      addr := buf[bi..bi + addrlen];
      bi := bi + addrlen;
    }
    assert addr == buf[at + HLEN + 4..bi];
    var canon := None;
    if aclen > 0 {
      var n := CStrLen(buf, bi);
      canon := Some(buf[bi..bi + n]);
      bi := bi + aclen;
    }
    return Got(Addrinfo(flags, family, socktype, protocol, addrlen, Some(addr), canon), bi);
  }

  /** decode_addrlist: node after node until the count is reached or a check fails. */
  method DecodeAddrlist(buf: seq<byte>, cnt: int, buflen: nat) returns (r: ListResult)
    requires buflen <= |buf|
    ensures r == DecodeFrom(buf, 0, if cnt < 0 then 0 else cnt, buflen)
  {
    hide DecodeNode;
    var list: seq<Addrinfo> := [];
    var bi, i := 0, 0;
    while i < cnt
      invariant 0 <= i && (0 <= cnt ==> i <= cnt)
      invariant cnt < 0 ==> list == []
      invariant 0 <= cnt ==> DecodeFrom(buf, 0, cnt, buflen) == Prepend(list, DecodeFrom(buf, bi, cnt - i, buflen))
    {
      var node := ReadNode(buf, bi, buflen);
      if node.TooLong? {
        return Undefined;
      }
      PrependStep(list, node.e, DecodeFrom(buf, node.next, cnt - i - 1, buflen));
      list, bi, i := list + [node.e], node.next, i + 1;
    }
    r := Ok(list);
  }

  /** The nodes decoded so far in front of what the rest gives. */
  function Prepend(list: seq<Addrinfo>, r: ListResult): ListResult {
    match r case Undefined => Undefined case Ok(l) => Ok(list + l)
  }

  lemma PrependStep(list: seq<Addrinfo>, e: Addrinfo, r: ListResult)
    ensures Prepend(list, Prepend([e], r)) == Prepend(list + [e], r)
  {
    if r.Ok? {
      assert list + ([e] + r.list) == (list + [e]) + r.list;
    }
  }
}
