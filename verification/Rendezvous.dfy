/**
  Remote endpoint announcements meet local service registrations, in either order.  Services are
  known by number; whether a service matches an endpoint name is given by `matches`.
 */
module Rendezvous {
  import opened Words
  import opened Tally

  const RPMSG_NAME_SIZE: nat := 32
  const ADDR_ANY: u32 := 0xFFFF_FFFF

  type Matcher = (nat, string) -> bool

  /** A service to register, with or without its two name-service callbacks. */
  datatype Service = Service(id: nat, hasMatch: bool, hasBind: bool)

  /** A remote endpoint as announced, or as restored from the endpoint table. */
  datatype Remote = Remote(name: string, addr: u32, dest: u32)

  /** One call of a bind callback. */
  datatype Binding = Binding(service: nat, ept: Remote)

  datatype Net = Net(services: seq<Service>, pending: seq<Remote>, bound: seq<Binding>)

  /** strlcpy into a name field. */
  function Truncate(name: string): (t: string)
    ensures t <= name && |t| == Min(|name|, 31)
  {
    if |name| < RPMSG_NAME_SIZE then name else name[..RPMSG_NAME_SIZE - 1]
  }

  predicate Serves(matches: Matcher, s: Service, name: string) {
    s.hasMatch && matches(s.id, name)
  }

  /** The earliest registered service that serves the name. */
  function First(matches: Matcher, services: seq<Service>, name: string): Option<nat> {
    if services == [] then None
    else
      var earlier := First(matches, services[..|services| - 1], name);
      var last := services[|services| - 1];
      if earlier.Some? then earlier else if Serves(matches, last, name) then Some(last.id) else None
  }

  /** Endpoints the service serves, and the others, in order. */
  function Served(matches: Matcher, s: Service, epts: seq<Remote>): seq<Remote> {
    if epts == [] then []
    else Served(matches, s, epts[..|epts| - 1])
         + if Serves(matches, s, epts[|epts| - 1].name) then [epts[|epts| - 1]] else []
  }

  function Unserved(matches: Matcher, s: Service, epts: seq<Remote>): seq<Remote> {
    if epts == [] then []
    else Unserved(matches, s, epts[..|epts| - 1])
         + if Serves(matches, s, epts[|epts| - 1].name) then [] else [epts[|epts| - 1]]
  }

  function BindAll(id: nat, epts: seq<Remote>): (bs: seq<Binding>)
    ensures |bs| == |epts| && forall k :: 0 <= k < |bs| ==> bs[k] == Binding(id, epts[k])
  {
    seq(|epts|, k requires 0 <= k < |epts| => Binding(id, epts[k]))
  }

  // ---------- the two operations ----------

  /** mica_register_service on a running client; a matcher without a bind callback is refused. */
  function Register(matches: Matcher, n: Net, s: Service): Net {
    if s.hasMatch && !s.hasBind then n
    else Net(n.services + [s], Unserved(matches, s, n.pending), n.bound + BindAll(s.id, Served(matches, s, n.pending)))
  }

  /** mica_ns_bind_cb */
  function Announce(matches: Matcher, n: Net, name: string, dest: u32): Net {
    match First(matches, n.services, name)
    case Some(id) => n.(bound := n.bound + [Binding(id, Remote(name, dest, ADDR_ANY))])
    case None => n.(pending := n.pending + [Remote(Truncate(name), dest, ADDR_ANY)])
  }

  datatype Event = Reg(s: Service) | Ann(name: string, dest: u32)

  function Run(matches: Matcher, pending: seq<Remote>, events: seq<Event>): Net {
    if events == [] then Net([], pending, [])
    else
      var n := Run(matches, pending, events[..|events| - 1]);
      match events[|events| - 1]
      case Reg(s) => Register(matches, n, s)
      case Ann(name, dest) => Announce(matches, n, name, dest)
  }

  // ---------- what the outcome depends on ----------

  /** Accepted registrations, in order. */
  function Registered(events: seq<Event>): seq<Service> {
    if events == [] then []
    else
      var last := events[|events| - 1];
      Registered(events[..|events| - 1])
      + if last.Reg? && !(last.s.hasMatch && !last.s.hasBind) then [last.s] else []
  }

  /** Announced endpoints, in order. */
  function Announced(events: seq<Event>): seq<Remote> {
    if events == [] then []
    else
      var last := events[|events| - 1];
      Announced(events[..|events| - 1]) + if last.Ann? then [Remote(last.name, last.dest, ADDR_ANY)] else []
  }

  /** Endpoints no service serves. */
  function Unmatched(matches: Matcher, services: seq<Service>, epts: seq<Remote>): seq<Remote> {
    if epts == [] then []
    else
      var last := epts[|epts| - 1];
      Unmatched(matches, services, epts[..|epts| - 1]) + if First(matches, services, last.name).None? then [last] else []
  }

  /** Each served endpoint with the earliest service serving it. */
  function Matched(matches: Matcher, services: seq<Service>, epts: seq<Remote>): seq<Binding> {
    if epts == [] then []
    else
      var last := epts[|epts| - 1];
      Matched(matches, services, epts[..|epts| - 1])
      + match First(matches, services, last.name) case None => [] case Some(id) => [Binding(id, last)]
  }

  predicate ShortNames(events: seq<Event>) {
    forall k :: 0 <= k < |events| && events[k].Ann? ==> |events[k].name| < RPMSG_NAME_SIZE
  }

  // ---------- order independence ----------

  lemma FirstGrows(matches: Matcher, services: seq<Service>, s: Service, name: string)
    ensures First(matches, services + [s], name) ==
            if First(matches, services, name).Some? then First(matches, services, name)
            else if Serves(matches, s, name) then Some(s.id) else None
  {
    assert (services + [s])[..|services|] == services;
  }

  /** A late registration picks from the unmatched endpoints exactly those it serves. */
  lemma {:induction false} UnmatchedGrows(matches: Matcher, services: seq<Service>, s: Service, epts: seq<Remote>)
    ensures Unmatched(matches, services + [s], epts) == Unserved(matches, s, Unmatched(matches, services, epts))
    decreases |epts|
  {
    if epts != [] {
      var rest, last := epts[..|epts| - 1], epts[|epts| - 1];
      UnmatchedGrows(matches, services, s, rest);
      FirstGrows(matches, services, s, last.name);
      var u := Unmatched(matches, services, rest);
      UnservedAppend(matches, s, u, last);
      hide First, Serves;
      if First(matches, services, last.name).Some? {
        assert Unmatched(matches, services, epts) == u;
        assert Unmatched(matches, services + [s], epts) == Unmatched(matches, services + [s], rest);
      } else {
        assert Unmatched(matches, services, epts) == u + [last];
      }
    }
  }

  lemma UnservedAppend(matches: Matcher, s: Service, epts: seq<Remote>, e: Remote)
    ensures Unserved(matches, s, epts + [e]) ==
            Unserved(matches, s, epts) + if Serves(matches, s, e.name) then [] else [e]
    ensures Served(matches, s, epts + [e]) ==
            Served(matches, s, epts) + if Serves(matches, s, e.name) then [e] else []
  {
    assert (epts + [e])[..|epts|] == epts;
  }

  /** The bindings it adds are those of the endpoints it picks; earlier bindings stay. */
  lemma {:induction false} MatchedGrows(matches: Matcher, services: seq<Service>, s: Service, epts: seq<Remote>)
    ensures multiset(Matched(matches, services + [s], epts)) ==
            multiset(Matched(matches, services, epts))
            + multiset(BindAll(s.id, Served(matches, s, Unmatched(matches, services, epts))))
    decreases |epts|
  {
    if epts != [] {
      hide First, Serves, Served, Unserved, BindAll, Matched, Unmatched;
      var rest, last := epts[..|epts| - 1], epts[|epts| - 1];
      var u := Unmatched(matches, services, rest);
      var m, m', g := Matched(matches, services, rest), Matched(matches, services + [s], rest), Served(matches, s, u);
      MatchedGrows(matches, services, s, rest);
      FirstGrows(matches, services, s, last.name);
      LastMatched(matches, services, epts);
      LastMatched(matches, services + [s], epts);
      if First(matches, services, last.name).Some? {
        AddToBoth(m', m, BindAll(s.id, g), Binding(First(matches, services, last.name).value, last));
      } else {
        UnservedAppend(matches, s, u, last);
        if Serves(matches, s, last.name) {
          BindAllAppend(s.id, g, last);
          AddToLast(m', m, BindAll(s.id, g), Binding(s.id, last));
        } else {
          assert g + [] == g;
        }
      }
    }
  }

  lemma AddToBoth<T>(all: seq<T>, first: seq<T>, second: seq<T>, b: T)
    requires multiset(all) == multiset(first) + multiset(second)
    ensures multiset(all + [b]) == multiset(first + [b]) + multiset(second)
  {
    assert multiset(all + [b]) == multiset(all) + multiset{b};
    assert multiset(first + [b]) == multiset(first) + multiset{b};
  }

  lemma AddToLast<T>(all: seq<T>, first: seq<T>, second: seq<T>, b: T)
    requires multiset(all) == multiset(first) + multiset(second)
    ensures multiset(all + [b]) == multiset(first) + multiset(second + [b])
  {
    assert multiset(all + [b]) == multiset(all) + multiset{b};
    assert multiset(second + [b]) == multiset(second) + multiset{b};
  }

  lemma LastMatched(matches: Matcher, services: seq<Service>, epts: seq<Remote>)
    requires epts != []
    ensures var (rest, last) := (epts[..|epts| - 1], epts[|epts| - 1]);
            match First(matches, services, last.name)
            case None =>
              && Matched(matches, services, epts) == Matched(matches, services, rest)
              && Unmatched(matches, services, epts) == Unmatched(matches, services, rest) + [last]
            case Some(id) =>
              && Matched(matches, services, epts) == Matched(matches, services, rest) + [Binding(id, last)]
              && Unmatched(matches, services, epts) == Unmatched(matches, services, rest)
  {
  }

  lemma BindAllAppend(id: nat, epts: seq<Remote>, e: Remote)
    ensures BindAll(id, epts + [e]) == BindAll(id, epts) + [Binding(id, e)]
  {
  }

  /**
    Whatever the order of announcements and registrations, the services are those registered, an
    endpoint no service serves is pending, in order, and every other is bound exactly once, to the
    earliest registered service serving it.  `pending` are endpoints restored before the run.
   */
  lemma {:induction false} OutcomeOf(matches: Matcher, pending: seq<Remote>, events: seq<Event>)
    requires ShortNames(events)
    ensures var n := Run(matches, pending, events);
            var (services, epts) := (Registered(events), pending + Announced(events));
            && n.services == services
            && n.pending == Unmatched(matches, services, epts)
            && multiset(n.bound) == multiset(Matched(matches, services, epts))
    decreases |events|
  {
    if events == [] {
      assert pending + [] == pending;
      NoServices(matches, pending);
    } else {
      hide First, Serves, Served, Unserved, BindAll, Matched, Unmatched, Run, Registered, Announced;
      var before, last := events[..|events| - 1], events[|events| - 1];
      OutcomeOf(matches, pending, before);
      RunStep(matches, pending, events);
      var n, services, epts := Run(matches, pending, before), Registered(before), pending + Announced(before);
      match last
      case Reg(s) =>
        assert pending + Announced(events) == epts;
        if !(s.hasMatch && !s.hasBind) {
          UnmatchedGrows(matches, services, s, epts);
          MatchedGrows(matches, services, s, epts);
          BagConcat(n.bound, BindAll(s.id, Served(matches, s, n.pending)));
        }
      case Ann(name, dest) =>
        var e := Remote(name, dest, ADDR_ANY);
        assert pending + Announced(events) == epts + [e];
        LastMatched(matches, services, epts + [e]);
        assert (epts + [e])[..|epts|] == epts;
        if First(matches, services, name).Some? {
          var b := Binding(First(matches, services, name).value, e);
          BagConcat(n.bound, [b]);
          BagConcat(Matched(matches, services, epts), [b]);
        }
    }
  }

  lemma BagConcat<T>(a: seq<T>, b: seq<T>)
    ensures multiset(a + b) == multiset(a) + multiset(b)
  {
  }

  lemma RunStep(matches: Matcher, pending: seq<Remote>, events: seq<Event>)
    requires events != []
    ensures var (before, last) := (events[..|events| - 1], events[|events| - 1]);
            var n := Run(matches, pending, before);
            match last
            case Reg(s) =>
              && Run(matches, pending, events) == Register(matches, n, s)
              && Registered(events) == (if s.hasMatch && !s.hasBind then Registered(before) else Registered(before) + [s])
              && Announced(events) == Announced(before)
            case Ann(name, dest) =>
              && Run(matches, pending, events) == Announce(matches, n, name, dest)
              && Registered(events) == Registered(before)
              && Announced(events) == Announced(before) + [Remote(name, dest, ADDR_ANY)]
  {
    hide Register, Announce;
  }

  lemma {:induction false} NoServices(matches: Matcher, epts: seq<Remote>)
    ensures Unmatched(matches, [], epts) == epts && Matched(matches, [], epts) == []
    decreases |epts|
  {
    if epts != [] {
      NoServices(matches, epts[..|epts| - 1]);
    }
  }

  /** Two interleavings of the same announcements and the same registrations end the same way. */
  lemma OrderIndependent(matches: Matcher, pending: seq<Remote>, a: seq<Event>, b: seq<Event>)
    requires ShortNames(a) && ShortNames(b)
    requires Registered(a) == Registered(b) && Announced(a) == Announced(b)
    ensures var (m, n) := (Run(matches, pending, a), Run(matches, pending, b));
            m.services == n.services && m.pending == n.pending && multiset(m.bound) == multiset(n.bound)
  {
    OutcomeOf(matches, pending, a);
    OutcomeOf(matches, pending, b);
  }

  /** Both orders of one announcement and one registration, for every service and matcher. */
  ghost predicate OrderFree(name: string, dest: u32) {
    forall matches: Matcher, s: Service ::
      multiset(Run(matches, [], [Ann(name, dest), Reg(s)]).bound) == multiset(Run(matches, [], [Reg(s), Ann(name, dest)]).bound)
  }

  lemma RunTwo(matches: Matcher, a: Event, b: Event)
    ensures Run(matches, [], [a, b]) ==
            var n := match a case Reg(s) => Register(matches, Net([], [], []), s)
                             case Ann(name, dest) => Announce(matches, Net([], [], []), name, dest);
            match b case Reg(s) => Register(matches, n, s) case Ann(name, dest) => Announce(matches, n, name, dest)
  {
    assert [a, b][..1] == [a] && [a][..0] == [];
    assert Run(matches, [], []) == Net([], [], []);
  }

  /**
    A pending endpoint keeps at most 31 characters of its name, so the order is immaterial exactly
    for names shorter than RPMSG_NAME_SIZE.
   */
  lemma OrderFreeExactly(name: string, dest: u32)
    ensures OrderFree(name, dest) <==> |name| < RPMSG_NAME_SIZE
  {
    if |name| < RPMSG_NAME_SIZE {
      forall matches: Matcher, s: Service
        ensures multiset(Run(matches, [], [Ann(name, dest), Reg(s)]).bound)
                == multiset(Run(matches, [], [Reg(s), Ann(name, dest)]).bound)
      {
        var a, b := [Ann(name, dest), Reg(s)], [Reg(s), Ann(name, dest)];
        assert a[..1] == [Ann(name, dest)] && b[..1] == [Reg(s)];
        OrderIndependent(matches, [], a, b);
      }
    } else {
      LongNameOrders(name, dest);
    }
  }

  lemma LongNameOrders(name: string, dest: u32)
    requires |name| >= RPMSG_NAME_SIZE
    ensures !OrderFree(name, dest)
  {
    hide Run;
    var all: Matcher := (i, n) => true;
    var s, e := Service(0, true, true), Remote(Truncate(name), dest, ADDR_ANY);
    RunTwo(all, Ann(name, dest), Reg(s));
    RunTwo(all, Reg(s), Ann(name, dest));
    OneServed(all, s, e);
    OneFirst(all, s, name);
    hide Served, First;
    var early, late := Run(all, [], [Ann(name, dest), Reg(s)]).bound, Run(all, [], [Reg(s), Ann(name, dest)]).bound;
    assert early == [Binding(0, e)];
    assert late == [Binding(0, Remote(name, dest, ADDR_ANY))];
    assert multiset(early)[Binding(0, e)] == 1 && multiset(late)[Binding(0, e)] == 0;
  }

  lemma OneServed(matches: Matcher, s: Service, e: Remote)
    requires Serves(matches, s, e.name)
    ensures Served(matches, s, [e]) == [e] && First(matches, [], e.name) == None && Served(matches, s, []) == []
  {
    assert [e][..0] == [];
  }

  lemma OneFirst(matches: Matcher, s: Service, name: string)
    requires Serves(matches, s, name)
    ensures First(matches, [s], name) == Some(s.id) && First(matches, [], name) == None
  {
    assert [s][..0] == [];
  }

  // ---------- in terms of the matchers alone ----------

  /** `services[i]` is the first of the services whose matcher takes the name. */
  ghost predicate Earliest(matches: Matcher, services: seq<Service>, i: nat, name: string) {
    && i < |services| && services[i].hasMatch && matches(services[i].id, name)
    && forall j :: 0 <= j < i ==> !(services[j].hasMatch && matches(services[j].id, name))
  }

  /** No service's matcher takes the name. */
  ghost predicate Nobody(matches: Matcher, services: seq<Service>, name: string) {
    forall i :: 0 <= i < |services| ==> !(services[i].hasMatch && matches(services[i].id, name))
  }

  lemma {:induction false} FirstMeans(matches: Matcher, services: seq<Service>, name: string)
    ensures First(matches, services, name).None? <==> Nobody(matches, services, name)
    ensures First(matches, services, name).Some? ==>
              exists i: nat :: Earliest(matches, services, i, name) && services[i].id == First(matches, services, name).value
    decreases |services|
  {
    if services != [] {
      var n := |services| - 1;
      var before := services[..n];
      FirstMeans(matches, before, name);
      if First(matches, before, name).Some? {
        var i: nat :| Earliest(matches, before, i, name) && before[i].id == First(matches, before, name).value;
        assert forall j :: 0 <= j < i ==> services[j] == before[j];
        assert Earliest(matches, services, i, name);
        assert !Nobody(matches, services, name);
      } else {
        assert forall j :: 0 <= j < n ==> services[j] == before[j];
        if Serves(matches, services[n], name) {
          assert Earliest(matches, services, n, name);
        }
      }
    }
  }

  /** The endpoint of a binding went to the earliest matching service. */
  ghost predicate RightlyBound(matches: Matcher, services: seq<Service>, b: Binding) {
    exists i: nat :: Earliest(matches, services, i, b.ept.name) && services[i].id == b.service
  }

  function EptsOf(bs: seq<Binding>): (rs: seq<Remote>)
    ensures |rs| == |bs|
  {
    seq(|bs|, k requires 0 <= k < |bs| => bs[k].ept)
  }

  /** Every endpoint is matched, rightly, or unmatched, for want of a matcher; none is both or neither. */
  lemma {:induction false} Split(matches: Matcher, services: seq<Service>, epts: seq<Remote>)
    ensures var (m, u) := (Matched(matches, services, epts), Unmatched(matches, services, epts));
            && (forall k :: 0 <= k < |m| ==> RightlyBound(matches, services, m[k]))
            && (forall k :: 0 <= k < |u| ==> Nobody(matches, services, u[k].name))
            && multiset(EptsOf(m)) + multiset(u) == multiset(epts)
    decreases |epts|
  {
    hide First, Matched, Unmatched, RightlyBound, Nobody;
    if epts == [] {
      NoEndpoints(matches, services);
    } else {
      var rest, last := epts[..|epts| - 1], epts[|epts| - 1];
      assert epts == rest + [last];
      Split(matches, services, rest);
      LastMatched(matches, services, epts);
      FirstFor(matches, services, last);
      var m := Matched(matches, services, rest);
      if First(matches, services, last.name).Some? {
        EptsOfAppend(m, Binding(First(matches, services, last.name).value, last));
      }
    }
  }

  lemma NoEndpoints(matches: Matcher, services: seq<Service>)
    ensures Matched(matches, services, []) == [] && Unmatched(matches, services, []) == [] && EptsOf([]) == []
  {
  }

  lemma FirstFor(matches: Matcher, services: seq<Service>, e: Remote)
    ensures match First(matches, services, e.name)
            case None => Nobody(matches, services, e.name)
            case Some(id) => RightlyBound(matches, services, Binding(id, e))
  {
    FirstMeans(matches, services, e.name);
  }

  lemma EptsOfAppend(bs: seq<Binding>, b: Binding)
    ensures EptsOf(bs + [b]) == EptsOf(bs) + [b.ept]
  {
  }

  /** Registered are the services of the registrations, except those with a matcher and no bind callback. */
  lemma {:induction false} RegisteredMeans(events: seq<Event>, s: Service)
    ensures s in Registered(events) <==> Reg(s) in events && (s.hasMatch ==> s.hasBind)
    decreases |events|
  {
    if events != [] {
      RegisteredMeans(events[..|events| - 1], s);
      assert events == events[..|events| - 1] + [events[|events| - 1]];
    }
  }

  /** How often an endpoint was announced, counted on the events. */
  function Announcements(events: seq<Event>, name: string, dest: u32): nat {
    if events == [] then 0
    else Announcements(events[..|events| - 1], name, dest) + if events[|events| - 1] == Ann(name, dest) then 1 else 0
  }

  lemma {:induction false} AnnouncedMeans(events: seq<Event>, e: Remote)
    ensures multiset(Announced(events))[e] == if e.dest == ADDR_ANY then Announcements(events, e.name, e.addr) else 0
    decreases |events|
  {
    if events != [] {
      var before, last := events[..|events| - 1], events[|events| - 1];
      AnnouncedMeans(before, e);
      hide Announcements;
      if last.Ann? {
        BagConcat(Announced(before), [Remote(last.name, last.dest, ADDR_ANY)]);
      }
      AnnouncementsStep(events, e.name, e.addr);
    }
  }

  lemma AnnouncementsStep(events: seq<Event>, name: string, dest: u32)
    requires events != []
    ensures Announcements(events, name, dest) ==
            Announcements(events[..|events| - 1], name, dest) + if events[|events| - 1] == Ann(name, dest) then 1 else 0
  {
  }

  /**
    Over every run with names that fit, said of the matchers alone: every binding went to the first
    registered service whose matcher takes the name; no matcher of a registered service takes the
    name of a pending endpoint; and bindings and pending endpoints together are, each as often, the
    endpoints announced and those pending before.
   */
  lemma BoundRightly(matches: Matcher, pending: seq<Remote>, events: seq<Event>)
    requires ShortNames(events)
    ensures var n := Run(matches, pending, events);
            && (forall s :: s in n.services <==> Reg(s) in events && (s.hasMatch ==> s.hasBind))
            && (forall k :: 0 <= k < |n.bound| ==> RightlyBound(matches, n.services, n.bound[k]))
            && (forall k :: 0 <= k < |n.pending| ==> Nobody(matches, n.services, n.pending[k].name))
            && forall e: Remote ::
                 multiset(EptsOf(n.bound))[e] + multiset(n.pending)[e] == multiset(pending)[e]
                   + if e.dest == ADDR_ANY then Announcements(events, e.name, e.addr) else 0
  {
    hide Run, Registered, Announced, Announcements, Matched, Unmatched, RightlyBound, Nobody, EptsOf;
    var n := Run(matches, pending, events);
    var epts := pending + Announced(events);
    OutcomeOf(matches, pending, events);
    Split(matches, n.services, epts);
    forall s
      ensures s in n.services <==> Reg(s) in events && (s.hasMatch ==> s.hasBind)
    {
      RegisteredMeans(events, s);
    }
    var m := Matched(matches, n.services, epts);
    forall k | 0 <= k < |n.bound|
      ensures RightlyBound(matches, n.services, n.bound[k])
    {
      assert n.bound[k] in multiset(m);
    }
    SameEpts(n.bound, m);
    forall e: Remote
      ensures multiset(EptsOf(n.bound))[e] + multiset(n.pending)[e] == multiset(pending)[e]
                + if e.dest == ADDR_ANY then Announcements(events, e.name, e.addr) else 0
    {
      AnnouncedMeans(events, e);
      BagConcat(pending, Announced(events));
      assert (multiset(EptsOf(m)) + multiset(n.pending))[e] == multiset(epts)[e];
    }
  }

  function EptOf(b: Binding): Remote {
    b.ept
  }

  lemma SameEpts(a: seq<Binding>, b: seq<Binding>)
    requires multiset(a) == multiset(b)
    ensures multiset(EptsOf(a)) == multiset(EptsOf(b))
  {
    assert EptsOf(a) == Image(EptOf, a) && EptsOf(b) == Image(EptOf, b);
    ImageBag(EptOf, a, b);
  }

  /** The matcher of the service takes every one of the endpoints, or none of them. */
  ghost predicate TakesAll(matches: Matcher, s: Service, epts: seq<Remote>) {
    forall k :: 0 <= k < |epts| ==> s.hasMatch && matches(s.id, epts[k].name)
  }

  ghost predicate TakesNone(matches: Matcher, s: Service, epts: seq<Remote>) {
    forall k :: 0 <= k < |epts| ==> !(s.hasMatch && matches(s.id, epts[k].name))
  }

  lemma TakesMore(matches: Matcher, s: Service, epts: seq<Remote>, e: Remote)
    ensures TakesAll(matches, s, epts) && Serves(matches, s, e.name) ==> TakesAll(matches, s, epts + [e])
    ensures TakesNone(matches, s, epts) && !Serves(matches, s, e.name) ==> TakesNone(matches, s, epts + [e])
  {
  }

  /** A registration takes from the pending list exactly what the new matcher takes. */
  lemma {:induction false} SplitByMatcher(matches: Matcher, s: Service, epts: seq<Remote>)
    ensures TakesAll(matches, s, Served(matches, s, epts)) && TakesNone(matches, s, Unserved(matches, s, epts))
    decreases |epts|
  {
    if epts == [] {
      assert Served(matches, s, epts) == [] && Unserved(matches, s, epts) == [];
    } else {
      hide Served, Unserved, Serves, TakesAll, TakesNone;
      var rest, last := epts[..|epts| - 1], epts[|epts| - 1];
      assert epts == rest + [last];
      SplitByMatcher(matches, s, rest);
      UnservedAppend(matches, s, rest, last);
      TakesMore(matches, s, Served(matches, s, rest), last);
      TakesMore(matches, s, Unserved(matches, s, rest), last);
      if Serves(matches, s, last.name) {
        assert Served(matches, s, epts) == Served(matches, s, rest) + [last];
        assert Unserved(matches, s, epts) == Unserved(matches, s, rest);
      } else {
        assert Served(matches, s, epts) == Served(matches, s, rest);
        assert Unserved(matches, s, epts) == Unserved(matches, s, rest) + [last];
      }
    }
  }

  /** And loses none. */
  lemma {:induction false} SplitKeepsAll(matches: Matcher, s: Service, epts: seq<Remote>)
    ensures multiset(Served(matches, s, epts)) + multiset(Unserved(matches, s, epts)) == multiset(epts)
    decreases |epts|
  {
    if epts != [] {
      hide Served, Unserved, Serves;
      var rest, last := epts[..|epts| - 1], epts[|epts| - 1];
      assert epts == rest + [last];
      SplitKeepsAll(matches, s, rest);
      UnservedAppend(matches, s, rest, last);
      if Serves(matches, s, last.name) {
        AddToBoth(rest, Served(matches, s, rest), Unserved(matches, s, rest), last);
      } else {
        AddToLast(rest, Served(matches, s, rest), Unserved(matches, s, rest), last);
      }
    }
  }
}
