/** Crash recovery: endpoints saved before a crash are bound again by the services registered after it. */
module Recovery {
  import opened Tally
  import opened Rendezvous
  import opened EptTable
  import opened MicaClient

  /** The endpoint a bind callback creates for a restored remote endpoint. */
  function Recreated(r: Remote): Endpoint {
    Endpoint(r.name, r.dest, r.addr)
  }

  function RecreatedOf(b: Binding): Endpoint {
    Recreated(b.ept)
  }

  function RecreatedAll(bs: seq<Binding>): (es: seq<Endpoint>)
    ensures |es| == |bs|
  {
    Image(RecreatedOf, bs)
  }

  /** Endpoints that can come back: with a remote address, and a name some service serves. */
  function Recoverable(matches: Matcher, services: seq<Service>, epts: seq<Endpoint>): seq<Endpoint> {
    if epts == [] then []
    else
      var last := epts[|epts| - 1];
      Recoverable(matches, services, epts[..|epts| - 1])
      + if last.dest != 0 && First(matches, services, last.name).Some? then [last] else []
  }

  predicate ShortEpts(epts: seq<Endpoint>) {
    forall k :: 0 <= k < |epts| ==> |epts[k].name| < RPMSG_NAME_SIZE
  }

  lemma RecreatedAppend(bs: seq<Binding>, b: Binding)
    ensures RecreatedAll(bs + [b]) == RecreatedAll(bs) + [Recreated(b.ept)]
  {
  }

  lemma RestoredAppend(t: seq<Info>, i: Info)
    ensures Restored(t + [i]) ==
            if i.addr != 0 then Restored(t) + [Remote(Truncate(i.name), i.addr, i.dest)] else Restored(t)
  {
    assert (t + [i])[..|t|] == t;
  }

  /** What the services make of the replayed table is what was recoverable, address for address. */
  lemma {:induction false} MatchedRecreates(matches: Matcher, services: seq<Service>, epts: seq<Endpoint>)
    requires ShortEpts(epts)
    ensures RecreatedAll(Matched(matches, services, Restored(SwapAll(epts)))) == Recoverable(matches, services, epts)
    decreases |epts|
  {
    if epts != [] {
      hide First;
      hide Matched, Unmatched, Restored, RecreatedAll, SwapAll;
      var rest, last := epts[..|epts| - 1], epts[|epts| - 1];
      MatchedRecreates(matches, services, rest);
      assert SwapAll(epts) == SwapAll(rest) + [Swap(last)];
      RestoredAppend(SwapAll(rest), Swap(last));
      if last.dest != 0 {
        var rs, r := Restored(SwapAll(rest)), Remote(last.name, last.dest, last.addr);
        LastMatched(matches, services, rs + [r]);
        assert (rs + [r])[..|rs|] == rs;
        if First(matches, services, last.name).Some? {
          RecreatedAppend(Matched(matches, services, rs), Binding(First(matches, services, last.name).value, r));
        }
      }
    }
  }

  /** Registrations only. */
  function RegsOf(services: seq<Service>): seq<Event> {
    if services == [] then [] else RegsOf(services[..|services| - 1]) + [Reg(services[|services| - 1])]
  }

  predicate Usable(services: seq<Service>) {
    forall k :: 0 <= k < |services| ==> !(services[k].hasMatch && !services[k].hasBind)
  }

  lemma OneMoreReg(events: seq<Event>, s: Service)
    requires !(s.hasMatch && !s.hasBind) && ShortNames(events)
    ensures Registered(events + [Reg(s)]) == Registered(events) + [s]
    ensures Announced(events + [Reg(s)]) == Announced(events) && ShortNames(events + [Reg(s)])
  {
    assert (events + [Reg(s)])[..|events|] == events;
  }

  lemma {:induction false} RegsRegistered(services: seq<Service>)
    requires Usable(services)
    ensures Registered(RegsOf(services)) == services && Announced(RegsOf(services)) == []
    ensures ShortNames(RegsOf(services))
    decreases |services|
  {
    if services != [] {
      hide Registered, Announced, ShortNames;
      var rest, last := services[..|services| - 1], services[|services| - 1];
      RegsRegistered(rest);
      OneMoreReg(RegsOf(rest), last);
      assert services == rest + [last];
    }
  }

  /**
    Save the endpoints of a client, lose everything else, replay the table and register services
    again: the endpoints created are exactly the first 64 bound ones that have a remote address and
    a serving service, each with its name, local and remote address as before.
   */
  lemma RecoveryExact(matches: Matcher, epts: seq<Endpoint>, services: seq<Service>)
    requires ShortEpts(epts) && Usable(services)
    ensures var n := Run(matches, Restored(Saved(epts)), RegsOf(services));
            multiset(RecreatedAll(n.bound)) == multiset(Recoverable(matches, services, Capped(BoundOf(epts))))
  {
    hide Run, Restored, BoundOf, Capped, RegsOf, Registered, Announced, Matched, Unmatched, Recoverable, Image;
    var pending, events := Restored(Saved(epts)), RegsOf(services);
    RegsRegistered(services);
    OutcomeOf(matches, pending, events);
    assert pending + [] == pending;
    BoundShort(epts);
    MatchedRecreates(matches, services, Capped(BoundOf(epts)));
    ImageBag(RecreatedOf, Run(matches, pending, events).bound, Matched(matches, services, pending));
  }

  lemma {:induction false} BoundShort(epts: seq<Endpoint>)
    requires ShortEpts(epts)
    ensures ShortEpts(BoundOf(epts)) && ShortEpts(Capped(BoundOf(epts)))
    decreases |epts|
  {
    if epts != [] {
      BoundShort(epts[..|epts| - 1]);
    }
  }

  /** All of a client's bound endpoints come back if there are at most 64, all served, none at remote address 0. */
  lemma RecoveryComplete(matches: Matcher, epts: seq<Endpoint>, services: seq<Service>)
    requires ShortEpts(epts) && Usable(services) && |BoundOf(epts)| <= MAX_NUM_OF_EPTS
    requires forall k :: 0 <= k < |BoundOf(epts)| ==>
               BoundOf(epts)[k].dest != 0 && First(matches, services, BoundOf(epts)[k].name).Some?
    ensures multiset(RecreatedAll(Run(matches, Restored(Saved(epts)), RegsOf(services)).bound)) == multiset(BoundOf(epts))
  {
    hide Run, Restored, BoundOf, RegsOf, RecreatedAll, Saved;
    RecoveryExact(matches, epts, services);
    AllRecoverable(matches, services, BoundOf(epts));
  }

  lemma {:induction false} AllRecoverable(matches: Matcher, services: seq<Service>, epts: seq<Endpoint>)
    requires forall k :: 0 <= k < |epts| ==> epts[k].dest != 0 && First(matches, services, epts[k].name).Some?
    ensures Recoverable(matches, services, epts) == epts
    decreases |epts|
  {
    if epts != [] {
      hide First;
      AllRecoverable(matches, services, epts[..|epts| - 1]);
    }
  }

  /** A saved endpoint has a local address, so the bind callback asks for it and none is allocated. */
  lemma KeepsLocalAddress(alloc: Allocator, now: seq<Endpoint>, e: Endpoint)
    requires IsBound(e) && e.dest != 0 && |e.name| < RPMSG_NAME_SIZE
    ensures Restored([Swap(e)]) == [Remote(e.name, e.dest, e.addr)]
    ensures Created(alloc, now, Remote(e.name, e.dest, e.addr)) == Recreated(Remote(e.name, e.dest, e.addr)) == e
  {
    assert [Swap(e)][..0] == [];
  }

  // ---------- the restart, on the client ----------

  predicate AllKnown(rs: seq<Remote>) {
    forall k :: 0 <= k < |rs| ==> rs[k].dest != ADDR_ANY
  }

  /** Endpoints created for remotes that name their local address: none is allocated. */
  lemma {:induction false} CreatedRecreated(alloc: Allocator, now: seq<Endpoint>, rs: seq<Remote>)
    requires AllKnown(rs)
    ensures CreatedAll(alloc, now, rs) == now + Image(Recreated, rs)
    decreases |rs|
  {
    if rs == [] {
      assert Image(Recreated, rs) == [];
    } else {
      var n := |rs| - 1;
      CreatedRecreated(alloc, now, rs[..n]);
      assert Image(Recreated, rs) == Image(Recreated, rs[..n]) + [Recreated(rs[n])];
      hide Image;
    }
  }

  lemma {:induction false} SplitKnown(matches: Matcher, s: Service, rs: seq<Remote>)
    requires AllKnown(rs)
    ensures AllKnown(Served(matches, s, rs)) && AllKnown(Unserved(matches, s, rs))
    decreases |rs|
  {
    if rs != [] {
      SplitKnown(matches, s, rs[..|rs| - 1]);
    }
  }

  /** A registration on the restarted client recreates exactly the endpoints it binds. */
  lemma RegisterRecreates(matches: Matcher, alloc: Allocator, n: Net, s: Service)
    requires AllKnown(n.pending) && !(s.hasMatch && !s.hasBind)
    ensures AllKnown(Register(matches, n, s).pending)
    ensures CreatedAll(alloc, RecreatedAll(n.bound), Served(matches, s, n.pending)) ==
            RecreatedAll(Register(matches, n, s).bound)
  {
    hide Served, Unserved, CreatedAll;
    var rs := Served(matches, s, n.pending);
    SplitKnown(matches, s, n.pending);
    CreatedRecreated(alloc, RecreatedAll(n.bound), rs);
    assert RecreatedAll(n.bound + BindAll(s.id, rs)) == RecreatedAll(n.bound) + Image(Recreated, rs);
  }

  /** Remotes a saved table restores: both addresses known, a remote one, a name that is not cut. */
  predicate Intact(r: Remote) {
    r.addr != 0 && r.addr != ADDR_ANY && r.dest != ADDR_ANY && |r.name| < RPMSG_NAME_SIZE
  }

  lemma {:induction false} RestoredIntact(epts: seq<Endpoint>)
    requires ShortEpts(epts) && forall k :: 0 <= k < |epts| ==> IsBound(epts[k])
    ensures forall k :: 0 <= k < |Restored(SwapAll(epts))| ==> Intact(Restored(SwapAll(epts))[k])
    ensures |Restored(SwapAll(epts))| <= |epts|
    decreases |epts|
  {
    if epts != [] {
      hide Restored, SwapAll;
      var before, e := epts[..|epts| - 1], epts[|epts| - 1];
      assert epts == before + [e];
      RestoredIntact(before);
      SwapAppend(before, e);
      RestoredAppend(SwapAll(before), Swap(e));
    } else {
      assert SwapAll(epts) == [] && Restored([]) == [];
    }
  }

  lemma {:induction false} BoundAreBound(epts: seq<Endpoint>)
    ensures forall k :: 0 <= k < |BoundOf(epts)| ==> IsBound(BoundOf(epts)[k])
    decreases |epts|
  {
    if epts != [] {
      BoundAreBound(epts[..|epts| - 1]);
    }
  }

  lemma SavedIntact(epts: seq<Endpoint>)
    requires ShortEpts(epts)
    ensures var r := Restored(Saved(epts));
            |r| <= MAX_NUM_OF_EPTS && AllKnown(r) && forall k :: 0 <= k < |r| ==> Intact(r[k])
  {
    hide BoundOf, Restored, SwapAll;
    BoundShort(epts);
    BoundAreBound(epts);
    RestoredIntact(Capped(BoundOf(epts)));
  }

  lemma RunRegister(matches: Matcher, pending: seq<Remote>, services: seq<Service>, i: nat)
    requires i < |services|
    ensures Run(matches, pending, RegsOf(services[..i + 1])) ==
            Register(matches, Run(matches, pending, RegsOf(services[..i])), services[i])
  {
    hide Run, Register;
    var before := RegsOf(services[..i]);
    assert services[..i + 1][..i] == services[..i];
    assert RegsOf(services[..i + 1]) == before + [Reg(services[i])];
    RunStep(matches, pending, before + [Reg(services[i])]);
    assert (before + [Reg(services[i])])[..|before|] == before;
  }

  /** Every bound endpoint can come back. */
  predicate Complete(matches: Matcher, services: seq<Service>, epts: seq<Endpoint>) {
    && |BoundOf(epts)| <= MAX_NUM_OF_EPTS
    && forall k :: 0 <= k < |BoundOf(epts)| ==>
         BoundOf(epts)[k].dest != 0 && First(matches, services, BoundOf(epts)[k].name).Some?
  }

  /**
    The table saved for `epts`, a crash, and the restart: a new client, the table replayed, the
    services registered in order.  Its endpoints are exactly the recoverable ones, as they were, and
    after `k` of the binds the table holds `TableAfterBinds(epts, endpoints, k)`.
   */
  method Recover(matches: Matcher, alloc: Allocator, table: EptTable, epts: seq<Endpoint>, services: seq<Service>)
    returns (c: Client)
    requires table.Valid() && ShortEpts(epts) && Usable(services)
    modifies table, table.entries
    ensures c.Valid() && c.table == table
    ensures c.Value() == Run(matches, Restored(Saved(epts)), RegsOf(services)) && c.endpoints == RecreatedAll(c.bound)
    ensures multiset(c.endpoints) == multiset(Recoverable(matches, services, Capped(BoundOf(epts))))
    ensures Complete(matches, services, epts) ==> multiset(c.endpoints) == multiset(BoundOf(epts))
    ensures |c.written| == |c.endpoints|
    ensures forall k :: 0 <= k <= |c.endpoints| ==> c.TableAfter(k) == TableAfterBinds(epts, c.endpoints, k)
  {
    hide Run, Restored, BoundOf, Capped, SwapAll, RegsOf, Register, Recoverable, RecreatedAll, Served, CreatedAll;
    var _ := table.Update(epts);
    SavedIntact(epts);
    c := new Client(table);
    c.pending := table.HandleRsc(c.pending);
    ghost var pending := c.pending;
    assert [] + Restored(Saved(epts)) == Restored(Saved(epts));
    NothingRun(matches, pending);
    assert services[..0] == [];
    for i := 0 to |services|
      invariant c.Valid() && c.table == table && fresh(c) && c.initial == Saved(epts)
      invariant c.Value() == Run(matches, pending, RegsOf(services[..i]))
      invariant AllKnown(c.pending) && c.endpoints == RecreatedAll(c.bound)
    {
      RegisterRecreates(matches, alloc, c.Value(), services[i]);
      RunRegister(matches, pending, services, i);
      var _ := c.RegisterService(matches, alloc, true, services[i]);
    }
    assert services[..|services|] == services;
    RecoveryExact(matches, epts, services);
    if Complete(matches, services, epts) {
      RecoveryComplete(matches, epts, services);
    }
  }

  lemma NothingRun(matches: Matcher, pending: seq<Remote>)
    ensures Run(matches, pending, RegsOf([])) == Net([], pending, []) && RecreatedAll([]) == []
  {
  }

  // ---------- a second crash, in the middle of the recovery ----------

  /** The table once `k` endpoints of the recovery are bound: untouched before the first bind. */
  function TableAfterBinds(epts: seq<Endpoint>, back: seq<Endpoint>, k: nat): seq<Info>
    requires k <= |back|
  {
    if k == 0 then Saved(epts) else Saved(back[..k])
  }

  /** Matched endpoints are endpoints; if none is missing they are all of them, in order. */
  lemma {:induction false} MatchedFrom(matches: Matcher, services: seq<Service>, rs: seq<Remote>)
    ensures var m := Matched(matches, services, rs);
            && |m| <= |rs|
            && (forall k :: 0 <= k < |m| ==> m[k].ept in rs)
            && (|m| == |rs| ==> Image(EptOf, m) == rs)
    decreases |rs|
  {
    if rs != [] {
      hide First;
      hide Matched, Unmatched;
      var before := rs[..|rs| - 1];
      assert rs == before + [rs[|rs| - 1]];
      MatchedFrom(matches, services, before);
      LastMatched(matches, services, rs);
    } else {
      assert Image(EptOf, Matched(matches, services, rs)) == [];
    }
  }

  /** What the recovery binds: restored endpoints, at most as many as were restored. */
  lemma BoundIntact(matches: Matcher, epts: seq<Endpoint>, services: seq<Service>)
    requires ShortEpts(epts) && Usable(services)
    ensures var (r, bound) := (Restored(Saved(epts)), Run(matches, Restored(Saved(epts)), RegsOf(services)).bound);
            && |bound| <= |r| <= MAX_NUM_OF_EPTS
            && (forall k :: 0 <= k < |bound| ==> Intact(bound[k].ept))
            && (|bound| == |r| ==> multiset(Image(EptOf, bound)) == multiset(r))
  {
    hide Run, Restored, Saved, RegsOf, Registered, Announced, Matched, Unmatched, Image, Intact;
    var r, events := Restored(Saved(epts)), RegsOf(services);
    var bound, m := Run(matches, r, events).bound, Matched(matches, services, r);
    SavedIntact(epts);
    RegsRegistered(services);
    OutcomeOf(matches, r, events);
    assert r + [] == r;
    MatchedFrom(matches, services, r);
    assert |multiset(bound)| == |bound| && |multiset(m)| == |m|;
    forall k | 0 <= k < |bound|
      ensures Intact(bound[k].ept)
    {
      assert bound[k] in multiset(m);
      var i :| 0 <= i < |m| && m[i] == bound[k];
      var j :| 0 <= j < |r| && r[j] == m[i].ept;
    }
    ImageBag(EptOf, bound, m);
  }

  /** Saving and restoring what was recreated gives the remotes it was recreated from. */
  lemma {:induction false} RestoredAgain(bs: seq<Binding>)
    requires forall k :: 0 <= k < |bs| ==> Intact(bs[k].ept)
    ensures Restored(SwapAll(RecreatedAll(bs))) == Image(EptOf, bs)
    ensures BoundOf(RecreatedAll(bs)) == RecreatedAll(bs)
    decreases |bs|
  {
    if bs == [] {
      assert RecreatedAll(bs) == [] && Image(EptOf, bs) == [];
      assert SwapAll([]) == [];
    } else {
      var before, b := bs[..|bs| - 1], bs[|bs| - 1];
      assert bs == before + [b];
      RestoredAgain(before);
      RecreatedAppend(before, b);
      SwapAppend(RecreatedAll(before), RecreatedOf(b));
      RestoredAppend(SwapAll(RecreatedAll(before)), Swap(RecreatedOf(b)));
      assert Image(EptOf, bs) == Image(EptOf, before) + [b.ept];
      BoundAppend(RecreatedAll(before), RecreatedOf(b));
      hide Restored, SwapAll, RecreatedAll, Image, BoundOf;
    }
  }

  lemma BoundAppend(epts: seq<Endpoint>, e: Endpoint)
    ensures BoundOf(epts + [e]) == if IsBound(e) then BoundOf(epts) + [e] else BoundOf(epts)
  {
    assert (epts + [e])[..|epts|] == epts;
  }

  /**
    A second crash after `k` binds of the recovery.  The next replay restores everything again if
    `k` is zero, and otherwise exactly the `k` endpoints bound by then, in the order they were bound.
    So nothing is lost if and only if no endpoint, or every restored endpoint, was back.
   */
  lemma SecondCrashExactly(matches: Matcher, epts: seq<Endpoint>, services: seq<Service>, k: nat)
    requires ShortEpts(epts) && Usable(services)
    requires k <= |Run(matches, Restored(Saved(epts)), RegsOf(services)).bound|
    ensures var first := Restored(Saved(epts));
            var bound := Run(matches, first, RegsOf(services)).bound;
            var second := Restored(TableAfterBinds(epts, RecreatedAll(bound), k));
            && second == (if k == 0 then first else Image(EptOf, bound[..k]))
            && (multiset(second) == multiset(first) <==> k == 0 || k == |first|)
  {
    hide Run, Restored, BoundOf, SwapAll, RegsOf, Intact;
    var first := Restored(Saved(epts));
    var bound := Run(matches, first, RegsOf(services)).bound;
    BoundIntact(matches, epts, services);
    if k > 0 {
      assert RecreatedAll(bound)[..k] == RecreatedAll(bound[..k]);
      RestoredAgain(bound[..k]);
      var second := Image(EptOf, bound[..k]);
      assert Restored(TableAfterBinds(epts, RecreatedAll(bound), k)) == second;
      assert |multiset(second)| == k && |multiset(first)| == |first|;
      assert k == |bound| ==> bound[..k] == bound;
    }
  }

  lemma SwapAppend(epts: seq<Endpoint>, e: Endpoint)
    ensures SwapAll(epts + [e]) == SwapAll(epts) + [Swap(e)]
  {
  }

  // ---------- a crash inside one rewrite of the table ----------

  /**
    The table is cleared and then filled entry by entry, so a crash inside a rewrite leaves the first
    `j` entries.  Nothing is missing from the next replay exactly when no later entry has an address.
   */
  lemma {:induction false} CutShortExactly(t: seq<Info>, j: nat)
    requires j <= |t|
    ensures Restored(t[..j]) <= Restored(t)
    ensures Restored(t[..j]) == Restored(t) <==> forall i :: j <= i < |t| ==> t[i].addr == 0
    decreases |t|
  {
    if j == |t| {
      assert t[..j] == t;
    } else {
      var before, x := t[..|t| - 1], t[|t| - 1];
      assert before[..j] == t[..j] && t == before + [x];
      CutShortExactly(before, j);
      RestoredAppend(before, x);
      hide Restored;
      assert forall i :: j <= i < |before| ==> before[i] == t[i];
      if forall i :: j <= i < |before| ==> before[i].addr == 0 {
        assert x.addr == 0 <==> forall i :: j <= i < |t| ==> t[i].addr == 0;
      }
    }
  }

  /**
    A second crash inside the rewrite after the `k`-th bind of the recovery, with `j` entries made:
    the next replay restores exactly the first `j` endpoints bound, whatever `k`, so nothing is lost
    if and only if as many entries were made as endpoints had been restored.
   */
  lemma RewriteCrashExactly(matches: Matcher, epts: seq<Endpoint>, services: seq<Service>, k: nat, j: nat)
    requires ShortEpts(epts) && Usable(services) && j <= k
    requires 0 < k <= |Run(matches, Restored(Saved(epts)), RegsOf(services)).bound|
    ensures var first := Restored(Saved(epts));
            var bound := Run(matches, first, RegsOf(services)).bound;
            var rewritten := TableAfterBinds(epts, RecreatedAll(bound), k);
            && |rewritten| == k
            && Restored(rewritten[..j]) == Image(EptOf, bound[..j])
            && (multiset(Restored(rewritten[..j])) == multiset(first) <==> j == |first|)
  {
    hide Run, Restored, BoundOf, SwapAll, RegsOf, Intact;
    var first := Restored(Saved(epts));
    var bound := Run(matches, first, RegsOf(services)).bound;
    BoundIntact(matches, epts, services);
    assert RecreatedAll(bound)[..k] == RecreatedAll(bound[..k]);
    RestoredAgain(bound[..k]);
    assert bound[..k][..j] == bound[..j];
    assert RecreatedAll(bound[..k])[..j] == RecreatedAll(bound[..j]);
    RestoredAgain(bound[..j]);
    SwapPrefix(RecreatedAll(bound[..k]), j);
    var second := Image(EptOf, bound[..j]);
    assert |multiset(second)| == j && |multiset(first)| == |first|;
    assert j == |bound| ==> bound[..j] == bound;
  }

  lemma SwapPrefix(epts: seq<Endpoint>, j: nat)
    requires j <= |epts|
    ensures SwapAll(epts)[..j] == SwapAll(epts[..j]) && |SwapAll(epts)| == |epts|
  {
  }

  lemma TwoBound(a: Endpoint, b: Endpoint)
    requires IsBound(a) && IsBound(b)
    ensures BoundOf([a, b]) == [a, b] && Saved([a, b]) == SwapAll([a, b])
  {
    BoundAppend([], a);
    BoundAppend([a], b);
    assert [] + [a] == [a] && [a] + [b] == [a, b];
  }

  /** Any two saved endpoints, both served again: a crash between the two binds loses one of them. */
  lemma SecondCrashLoses(matches: Matcher, services: seq<Service>, a: Endpoint, b: Endpoint)
    requires IsBound(a) && IsBound(b) && a.dest != 0 && b.dest != 0 && ShortEpts([a, b])
    requires Usable(services) && First(matches, services, a.name).Some? && First(matches, services, b.name).Some?
    ensures var first := Restored(Saved([a, b]));
            var bound := Run(matches, first, RegsOf(services)).bound;
            && |bound| == 2
            && multiset(Restored(TableAfterBinds([a, b], RecreatedAll(bound), 1))) != multiset(first)
  {
    hide Run, Restored, BoundOf, RegsOf, First, Matched, Saved, SwapAll, TableAfterBinds, Image;
    TwoBound(a, b);
    RecoveryComplete(matches, [a, b], services);
    var first := Restored(Saved([a, b]));
    var bound := Run(matches, first, RegsOf(services)).bound;
    SameSize(RecreatedAll(bound), [a, b]);
    BoundIntact(matches, [a, b], services);
    RestoredIntact([a, b]);
    SecondCrashExactly(matches, [a, b], services, 1);
  }

  lemma SameSize<T>(s: seq<T>, t: seq<T>)
    requires multiset(s) == multiset(t)
    ensures |s| == |t|
  {
    assert |multiset(s)| == |s| && |multiset(t)| == |t|;
  }
}
