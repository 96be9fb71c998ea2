/** What the wire codecs share: integers and C strings in byte buffers, error codes. */
module Wire {
  import opened Words

  const RPC_EOVERLONG: int := 3002
  const RPC_ECORRUPTED: int := 3003
  const RPC_EINVAL: int := 3005

  /** A C string without its terminator. */
  ghost predicate NulFree(s: seq<byte>) {
    forall i :: 0 <= i < |s| ==> s[i] != 0
  }

  function I32At(s: seq<byte>, at: nat): i32
    requires at + 4 <= |s|
  {
    AsI32(FromLe32(s[at..at + 4]))
  }

  function I16At(s: seq<byte>, at: nat): int
    requires at + 2 <= |s|
  {
    FromLe16(s[at..at + 2])
  }

  /** strlen from `at`, not looking past the end of the payload. */
  function StrLen(s: seq<byte>, at: nat): (n: nat)
    ensures at <= |s| ==> at + n <= |s|
    decreases |s| - at
  {
    if at >= |s| || s[at] == 0 then 0 else 1 + StrLen(s, at + 1)
  }

  /** `strlen` at `at`. */
  method CStrLen(s: seq<byte>, at: nat) returns (n: nat)
    ensures n == StrLen(s, at)
  {
    n := 0;
    while at + n < |s| && s[at + n] != 0
      invariant StrLen(s, at) == n + StrLen(s, at + n)
      decreases |s| - n
    {
      n := n + 1;
    }
  }

  lemma {:induction false} StrLenIs(s: seq<byte>, at: nat, n: nat)
    requires at + n < |s| && s[at + n] == 0 && forall i :: at <= i < at + n ==> s[i] != 0
    ensures StrLen(s, at) == n
    decreases n
  {
    if n > 0 {
      StrLenIs(s, at + 1, n - 1);
    }
  }

  /** `part` lies in `s` from `at` on. */
  ghost predicate Within(s: seq<byte>, at: nat, part: seq<byte>) {
    at + |part| <= |s| && s[at..at + |part|] == part
  }

  lemma WithinSub(s: seq<byte>, at: nat, part: seq<byte>, i: nat, j: nat)
    requires Within(s, at, part) && i <= j <= |part|
    ensures s[at + i..at + j] == part[i..j]
  {
    assert forall k :: 0 <= k < |part| ==> s[at + k] == s[at..at + |part|][k] == part[k];
  }
}
