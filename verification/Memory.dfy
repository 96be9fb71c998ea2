/** Copying into an array in place. */
module Memory {
  import opened Words

  method Memcpy(mem: array<byte>, at: nat, src: seq<byte>)
    requires at + |src| <= mem.Length
    modifies mem
    ensures mem[..] == Splice(old(mem[..]), at, src)
  {
    for i := 0 to |src|
      invariant forall k :: 0 <= k < mem.Length ==>
                  mem[k] == if at <= k < at + i then src[k - at] else old(mem[k])
    {
      mem[at + i] := src[i];
    }
  }

  /** Two copies end to end are one. */
  lemma SpliceAppend(m: seq<byte>, at: nat, a: seq<byte>, b: seq<byte>)
    requires at + |a| + |b| <= |m|
    ensures Splice(Splice(m, at, a), at + |a|, b) == Splice(m, at, a + b)
  {
  }

  /** A copy behind a gap and a copy into the gap fill a prefix. */
  lemma SplicePrefix(m: seq<byte>, head: seq<byte>, body: seq<byte>)
    requires |head| + |body| <= |m|
    ensures Splice(Splice(m, |head|, body), 0, head) == Splice(m, 0, head + body)
  {
  }
}
