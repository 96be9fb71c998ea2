/** The endpoint table in the resource table: saved after every bind, replayed after a host crash. */
module EptTable {
  import opened Words
  import opened Errno
  import opened Rendezvous

  const MAX_NUM_OF_EPTS: nat := 64

  /** A local rpmsg endpoint: its own address and the remote one. */
  datatype Endpoint = Endpoint(name: string, addr: u32, dest: u32)

  /** struct ept_info, from the point of view of the remote. */
  datatype Info = Info(name: string, addr: u32, dest: u32)

  predicate IsBound(e: Endpoint) {
    e.addr != ADDR_ANY && e.dest != ADDR_ANY
  }

  function BoundOf(epts: seq<Endpoint>): seq<Endpoint> {
    if epts == [] then []
    else BoundOf(epts[..|epts| - 1]) + if IsBound(epts[|epts| - 1]) then [epts[|epts| - 1]] else []
  }

  /** The remote's view: addresses exchanged, the name cut to 31 characters. */
  function Swap(e: Endpoint): (i: Info)
    ensures i.name <= e.name && |i.name| == Min(|e.name|, 31) && i.addr == e.dest && i.dest == e.addr
  {
    Info(Truncate(e.name), e.dest, e.addr)
  }

  function SwapAll(epts: seq<Endpoint>): (t: seq<Info>)
    ensures |t| == |epts| && forall k :: 0 <= k < |t| ==> t[k] == Swap(epts[k])
  {
    seq(|epts|, k requires 0 <= k < |epts| => Swap(epts[k]))
  }

  function Capped<T>(s: seq<T>): seq<T> {
    if |s| <= MAX_NUM_OF_EPTS then s else s[..MAX_NUM_OF_EPTS]
  }

  /** What the table records for a list of endpoints: the first 64 bound ones, swapped. */
  function Saved(epts: seq<Endpoint>): seq<Info> {
    SwapAll(Capped(BoundOf(epts)))
  }

  /** Entries replayed into the pending list; a zero address marks no endpoint. */
  function Restored(t: seq<Info>): seq<Remote> {
    if t == [] then []
    else
      var last := t[|t| - 1];
      Restored(t[..|t| - 1]) + if last.addr != 0 then [Remote(Truncate(last.name), last.addr, last.dest)] else []
  }

  class EptTable {
    const entries: array<Info>
    var num: nat
    // what the table recorded at each point of its last rewrite
    ghost var during: seq<seq<Info>>

    ghost predicate Valid()
      reads this
    {
      entries.Length == MAX_NUM_OF_EPTS && num <= MAX_NUM_OF_EPTS
    }

    ghost function Recorded(): seq<Info>
      requires Valid()
      reads this, entries
    {
      entries[..num]
    }

    constructor ()
      ensures Valid() && Recorded() == [] && fresh(entries)
    {
      entries := new Info[MAX_NUM_OF_EPTS](i => Info("", 0, 0));
      num := 0;
      during := [[]];
    }

    /**
      rsc_update_ept_table: clear, then record the bound endpoints in order.  The table ends up
      holding exactly the first 64 of them, and the call fails exactly when there are more.
     */
    method Update(epts: seq<Endpoint>) returns (ret: int)
      requires Valid()
      modifies this, entries
      ensures Valid() && Recorded() == Saved(epts)
      ensures forall k :: num <= k < MAX_NUM_OF_EPTS ==> entries[k] == Info("", 0, 0)
      ensures ret == if |BoundOf(epts)| > MAX_NUM_OF_EPTS then -ENOSPC else 0
      ensures Prefixes(during, Saved(epts))
    {
      hide Prefixes, Swap;
      forall k | 0 <= k < entries.Length {
        entries[k] := Info("", 0, 0);
      }
      num := 0;
      during := [[]];
      PrefixesNone();
      assert epts[..0] == [];
      for i := 0 to |epts|
        invariant Valid() && num == |BoundOf(epts[..i])|
        invariant Recorded() == SwapAll(BoundOf(epts[..i])) && Prefixes(during, Recorded())
        invariant forall k :: num <= k < MAX_NUM_OF_EPTS ==> entries[k] == Info("", 0, 0)
      {
        var e := epts[i];
        assert epts[..i + 1][..i] == epts[..i];
        if e.addr == ADDR_ANY || e.dest == ADDR_ANY {
          continue;
        }
        assert BoundOf(epts[..i + 1]) == BoundOf(epts[..i]) + [e];
        if num >= MAX_NUM_OF_EPTS {
          BoundPrefix(epts, i + 1);
          assert BoundOf(epts[..i]) == BoundOf(epts[..i + 1])[..MAX_NUM_OF_EPTS] == BoundOf(epts)[..MAX_NUM_OF_EPTS];
          return -ENOSPC;
        }
        ghost var before := entries[..num];
        entries[num] := Swap(e);
        assert entries[..num] == before;
        num := num + 1;
        assert entries[..num] == before + [Swap(e)];
        PrefixesGrow(during, before, Swap(e));
        during := during + [before + [Swap(e)]];
      }
      assert epts[..|epts|] == epts;
      ret := 0;
    }

    /** handle_mica_rsc for the endpoint table: replay it behind the pending endpoints. */
    method HandleRsc(pending: seq<Remote>) returns (now: seq<Remote>)
      requires Valid()
      ensures now == pending + Restored(Recorded())
    {
      now := pending;
      assert entries[..0] == [];
      for i := 0 to num
        invariant now == pending + Restored(entries[..i])
      {
        assert entries[..i + 1][..i] == entries[..i];
        var e := entries[i];
        if e.addr != 0 {
          now := now + [Remote(Truncate(e.name), e.addr, e.dest)];
        }
      }
    }
  }

  /** Every prefix of `t`, from the empty one to `t` itself. */
  ghost predicate Prefixes(states: seq<seq<Info>>, t: seq<Info>) {
    |states| == |t| + 1 && forall j :: 0 <= j <= |t| ==> states[j] == t[..j]
  }

  lemma PrefixesNone()
    ensures Prefixes([[]], [])
  {
  }

  lemma PrefixesGrow(states: seq<seq<Info>>, t: seq<Info>, x: Info)
    requires Prefixes(states, t)
    ensures Prefixes(states + [t + [x]], t + [x])
  {
    forall j | 0 <= j <= |t| + 1
      ensures (states + [t + [x]])[j] == (t + [x])[..j]
    {
      if j <= |t| {
        assert (t + [x])[..j] == t[..j];
      } else {
        assert (t + [x])[..j] == t + [x];
      }
    }
  }

  /** Recorded are exactly the endpoints with both addresses, each as often as it occurs. */
  lemma {:induction false} BoundMeans(epts: seq<Endpoint>, e: Endpoint)
    ensures multiset(BoundOf(epts))[e] ==
            if e.addr != 0xFFFF_FFFF && e.dest != 0xFFFF_FFFF then multiset(epts)[e] else 0
    decreases |epts|
  {
    if epts != [] {
      var n := |epts| - 1;
      assert epts == epts[..n] + [epts[n]];
      BoundMeans(epts[..n], e);
    }
  }

  lemma {:induction false} BoundPrefix(epts: seq<Endpoint>, k: nat)
    requires k <= |epts|
    ensures BoundOf(epts[..k]) <= BoundOf(epts)
    decreases |epts|
  {
    if k == |epts| {
      assert epts[..k] == epts;
    } else {
      BoundPrefix(epts[..|epts| - 1], k);
      assert epts[..|epts| - 1][..k] == epts[..k];
    }
  }
}
