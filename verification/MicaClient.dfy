/** The services, pending endpoints and endpoints of one client, updated in place. */
module MicaClient {
  import opened Words
  import opened Errno
  import opened Rendezvous
  import opened EptTable

  /** Local address the device hands out when none is asked for. */
  type Allocator = seq<Endpoint> -> u32

  /** rpmsg_create_ept from a bind callback: a known local address is kept, else one is allocated. */
  function Created(alloc: Allocator, epts: seq<Endpoint>, r: Remote): Endpoint {
    Endpoint(r.name, if r.dest == ADDR_ANY then alloc(epts) else r.dest, r.addr)
  }

  function CreatedAll(alloc: Allocator, epts: seq<Endpoint>, rs: seq<Remote>): seq<Endpoint> {
    if rs == [] then epts
    else
      var before := CreatedAll(alloc, epts, rs[..|rs| - 1]);
      before + [Created(alloc, before, rs[|rs| - 1])]
  }

  class Client {
    var services: seq<Service>
    var pending: seq<Remote>
    var bound: seq<Binding>
    var endpoints: seq<Endpoint>
    const table: EptTable?
    // what the table held at the start, and after each bind since
    ghost const initial: seq<Info>
    ghost var written: seq<seq<Info>>

    ghost predicate Valid()
      reads this, Repr()
    {
      && (table != null ==> table.Valid() && Journal())
      && forall k :: 0 <= k < |services| ==> services[k].hasMatch ==> services[k].hasBind
    }

    /** Every bind, and nothing else, rewrites the table, from the endpoints bound by then. */
    ghost predicate Journal()
      requires table != null && table.Valid()
      reads this`written, this`endpoints, table, table.entries
    {
      SavedEach(written, endpoints) && table.Recorded() == TableAfter(|written|)
    }

    /** What the table held once `k` binds had been made. */
    ghost function TableAfter(k: nat): seq<Info>
      requires k <= |written|
      reads this`written
    {
      if k == 0 then initial else written[k - 1]
    }

    ghost function Value(): Net
      reads this
    {
      Net(services, pending, bound)
    }

    ghost function Repr(): set<object>
      reads this
    {
      if table == null then {this} else {this, table, table.entries}
    }

    /** The table records the endpoints as they are. */
    ghost predicate TableCurrent()
      requires table != null ==> table.Valid()
      reads this`endpoints, table, if table == null then {} else {table.entries}
    {
      table != null ==> table.Recorded() == Saved(endpoints)
    }

    constructor (table: EptTable?)
      requires table != null ==> table.Valid()
      ensures Valid() && this.table == table && Value() == Net([], [], []) && endpoints == []
      ensures table != null ==> initial == table.Recorded()
    {
      this.table := table;
      initial := if table == null then [] else table.Recorded();
      written := [];
      services, pending, bound, endpoints := [], [], [], [];
    }

    /** The bind callback followed by rsc_update_ept_table, whose failure is only logged. */
    method Bind(alloc: Allocator, id: nat, r: Remote)
      requires Valid()
      modifies Repr()
      ensures Valid() && services == old(services) && pending == old(pending)
      ensures bound == old(bound) + [Binding(id, r)]
      ensures endpoints == old(endpoints) + [Created(alloc, old(endpoints), r)]
      ensures TableCurrent()
    {
      hide SavedEach, Created, Saved, EptTable.Recorded;
      var e := Created(alloc, endpoints, r);
      bound := bound + [Binding(id, r)];
      if table == null {
        endpoints := endpoints + [e];
      } else {
        SavedOneMore(written, endpoints, e);
        endpoints := endpoints + [e];
        var _ := table.Update(endpoints);
        written := written + [table.Recorded()];
        assert TableAfter(|written|) == table.Recorded();
      }
    }

    /** register_remote_ept */
    method RegisterRemoteEpt(name: string, addr: u32, dest: u32)
      requires Valid()
      modifies this
      ensures Valid()
      ensures pending == old(pending) + [Remote(Truncate(name), addr, dest)]
      ensures services == old(services) && bound == old(bound) && endpoints == old(endpoints)
      ensures written == old(written)
    {
      pending := pending + [Remote(Truncate(name), addr, dest)];
    }

    /**
      mica_register_service: bind every pending endpoint the new service serves, taking it out of
      the list while walking it, then add the service.
     */
    method RegisterService(matches: Matcher, alloc: Allocator, running: bool, s: Service) returns (ret: int)
      requires Valid()
      modifies Repr()
      ensures Valid()
      ensures ret == if !running then -EPERM else if s.hasMatch && !s.hasBind then -EINVAL else 0
      ensures Value() == if running then Register(matches, old(Value()), s) else old(Value())
      ensures ret == 0 ==> endpoints == CreatedAll(alloc, old(endpoints), Served(matches, s, old(pending)))
      ensures ret != 0 ==> endpoints == old(endpoints)
      ensures ret == 0 && Served(matches, s, old(pending)) != [] ==> TableCurrent()
      ensures ret != 0 || Served(matches, s, old(pending)) == [] ==>
                table != null ==> table.Recorded() == old(table.Recorded())
    {
      if !running {
        return -EPERM;
      }
      if s.hasMatch && !s.hasBind {
        return -EINVAL;
      }
      if s.hasMatch {
        BindPending(matches, alloc, s);
      } else {
        NoMatcher(matches, s, pending);
        assert bound + [] == bound;
      }
      services := services + [s];
      ret := 0;
    }

    method BindPending(matches: Matcher, alloc: Allocator, s: Service)
      requires Valid() && s.hasMatch
      modifies Repr()
      ensures Valid() && services == old(services)
      ensures pending == Unserved(matches, s, old(pending))
      ensures bound == old(bound) + BindAll(s.id, Served(matches, s, old(pending)))
      ensures endpoints == CreatedAll(alloc, old(endpoints), Served(matches, s, old(pending)))
      ensures Served(matches, s, old(pending)) != [] ==> TableCurrent()
      ensures Served(matches, s, old(pending)) == [] ==> table != null ==> table.Recorded() == old(table.Recorded())
    {
      hide Saved, Serves, Served, Unserved, CreatedAll, BindAll, EptTable.Recorded, Client.Journal, Client.TableCurrent;
      var i := 0;
      ghost var p0, e0, b0, j := pending, endpoints, bound, 0;
      StartWalk(matches, alloc, s, p0, e0, b0);
      while i < |pending|
        invariant Valid() && j <= |p0| && services == old(services)
        invariant i == |Unserved(matches, s, p0[..j])| && pending == Unserved(matches, s, p0[..j]) + p0[j..]
        invariant bound == b0 + BindAll(s.id, Served(matches, s, p0[..j]))
        invariant endpoints == CreatedAll(alloc, e0, Served(matches, s, p0[..j]))
        invariant Served(matches, s, p0[..j]) != [] ==> TableCurrent()
        invariant Served(matches, s, p0[..j]) == [] ==> table != null ==> table.Recorded() == old(table.Recorded())
        decreases |p0| - j
      {
        var r := pending[i];
        WalkOn(Unserved(matches, s, p0[..j]), p0, j);
        Walk(matches, alloc, s, p0, j, e0, b0);
        if Serves(matches, s, r.name) {
          Bind(alloc, s.id, r);
          pending := pending[..i] + pending[i + 1..];
        } else {
          i := i + 1;
        }
        j := j + 1;
      }
      assert p0[..j] == p0;
    }

    /** mica_ns_bind_cb: the first service that matches takes the endpoint, else it waits. */
    method NsBind(matches: Matcher, alloc: Allocator, name: string, dest: u32)
      requires Valid()
      modifies Repr()
      ensures Valid() && Value() == Announce(matches, old(Value()), name, dest)
      ensures First(matches, old(services), name).Some? ==>
                && endpoints == old(endpoints) + [Created(alloc, old(endpoints), Remote(name, dest, ADDR_ANY))]
                && TableCurrent()
      ensures First(matches, old(services), name).None? ==>
                && endpoints == old(endpoints)
                && (table != null ==> table.Recorded() == old(table.Recorded()))
    {
      assert services[..0] == [];
      for i := 0 to |services|
        invariant First(matches, services[..i], name).None?
        invariant Value() == old(Value()) && endpoints == old(endpoints) && Valid()
        invariant table != null ==> table.Recorded() == old(table.Recorded())
      {
        var svc := services[i];
        assert services[..i + 1][..i] == services[..i];
        if svc.hasMatch && !svc.hasBind {
          return;
        }
        if Serves(matches, svc, name) {
          FirstStays(matches, services, i + 1, name);
          Bind(alloc, svc.id, Remote(name, dest, ADDR_ANY));
          return;
        }
      }
      assert services[..|services|] == services;
      RegisterRemoteEpt(name, dest, ADDR_ANY);
    }

    /** mica_unregister_all_services: walks the list removing every node. */
    method UnregisterAll()
      requires Valid()
      modifies this
      ensures Valid() && services == [] && pending == old(pending) && bound == old(bound) && endpoints == old(endpoints)
    {
      while services != []
        invariant Valid() && pending == old(pending) && bound == old(bound) && endpoints == old(endpoints)
        decreases |services|
      {
        services := services[1..];
      }
    }
  }

  /** One saved table for each endpoint, recording that endpoint and those before it. */
  ghost predicate SavedEach(written: seq<seq<Info>>, epts: seq<Endpoint>) {
    |written| == |epts| && forall j :: 0 <= j < |written| ==> written[j] == Saved(epts[..j + 1])
  }

  lemma SavedOneMore(written: seq<seq<Info>>, epts: seq<Endpoint>, e: Endpoint)
    requires SavedEach(written, epts)
    ensures SavedEach(written + [Saved(epts + [e])], epts + [e])
  {
    hide Saved;
    var w, es := written + [Saved(epts + [e])], epts + [e];
    forall j | 0 <= j < |w|
      ensures w[j] == Saved(es[..j + 1])
    {
      if j < |written| {
        assert es[..j + 1] == epts[..j + 1];
      } else {
        assert es[..j + 1] == es;
      }
    }
  }

  /** Taking out, or passing by, the next of the endpoints still to be looked at. */
  lemma WalkOn<T>(passed: seq<T>, all: seq<T>, j: nat)
    requires j < |all|
    ensures var (now, i) := (passed + all[j..], |passed|);
            && now[i] == all[j]
            && now[..i] + now[i + 1..] == passed + all[j + 1..]
            && now == (passed + [all[j]]) + all[j + 1..]
  {
  }

  lemma {:induction false} NoMatcher(matches: Matcher, s: Service, epts: seq<Remote>)
    requires !s.hasMatch
    ensures Served(matches, s, epts) == [] && Unserved(matches, s, epts) == epts
    decreases |epts|
  {
    if epts != [] {
      NoMatcher(matches, s, epts[..|epts| - 1]);
    }
  }

  lemma StartWalk(matches: Matcher, alloc: Allocator, s: Service, p: seq<Remote>, es: seq<Endpoint>, bs: seq<Binding>)
    ensures p == Unserved(matches, s, p[..0]) + p[0..] && Served(matches, s, p[..0]) == []
    ensures CreatedAll(alloc, es, Served(matches, s, p[..0])) == es
    ensures bs == bs + BindAll(s.id, Served(matches, s, p[..0]))
  {
    assert p[..0] == [];
  }

  /** One more pending endpoint, served or not. */
  lemma Walk(matches: Matcher, alloc: Allocator, s: Service, p: seq<Remote>, j: nat, es: seq<Endpoint>, bs: seq<Binding>)
    requires j < |p|
    ensures var (sv, un) := (Served(matches, s, p[..j]), Unserved(matches, s, p[..j]));
            if Serves(matches, s, p[j].name) then
              && Served(matches, s, p[..j + 1]) == sv + [p[j]] && Unserved(matches, s, p[..j + 1]) == un
              && CreatedAll(alloc, es, sv + [p[j]]) ==
                 CreatedAll(alloc, es, sv) + [Created(alloc, CreatedAll(alloc, es, sv), p[j])]
              && bs + BindAll(s.id, sv + [p[j]]) == (bs + BindAll(s.id, sv)) + [Binding(s.id, p[j])]
            else
              Served(matches, s, p[..j + 1]) == sv && Unserved(matches, s, p[..j + 1]) == un + [p[j]]
  {
    assert p[..j + 1] == p[..j] + [p[j]];
    UnservedAppend(matches, s, p[..j], p[j]);
    var sv := Served(matches, s, p[..j]);
    assert (sv + [p[j]])[..|sv|] == sv;
    BindAllAppend(s.id, sv, p[j]);
  }

  /** A match among the first `k` services decides. */
  lemma {:induction false} FirstStays(matches: Matcher, services: seq<Service>, k: nat, name: string)
    requires k <= |services| && First(matches, services[..k], name).Some?
    ensures First(matches, services, name) == First(matches, services[..k], name)
    decreases |services|
  {
    if k == |services| {
      assert services[..k] == services;
    } else {
      assert services[..|services| - 1][..k] == services[..k];
      FirstStays(matches, services[..|services| - 1], k, name);
    }
  }
}
