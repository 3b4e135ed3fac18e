/**
 The gateway client's routes on Linux (vpn/netstate/routes_linux.go, vpn/netstate/manager_linux.go)
 over a model of the kernel: per family the host's own default routes, the exemption table, the
 fwmark rule and the TUN default.  Any netlink call that adds or lists may fail; a call that removes
 something present succeeds, one that removes something absent fails without effect.
 */
module LinuxRoutes {
  import opened Wrappers

  datatype Kind = Forwarding | Unreachable | Blackhole

  /** A default route: the attributes of its key, its type, and whatever else it carries. */
  datatype Route = Route(link: int, gw: nat, src: nat, metric: int, kind: Kind, other: nat)

  datatype Key = Key(link: int, gw: nat, src: nat, metric: int)

  function RouteKey(r: Route): Key { Key(r.link, r.gw, r.src, r.metric) }

  /** `host` are the main table's default routes other than awl's own. */
  datatype Family = Family(host: seq<Route>, table: set<Route>, rule: bool, tunRoute: bool)

  datatype Fault = Works | Fails | Unavailable

  /** What every fallible call in turn does. */
  type Faults = nat -> Fault

  ghost predicate AllWork(faults: Faults) { forall i :: faults(i) == Works }

  datatype RouteState = RouteState(
    tun: int, defaults4: seq<Route>, defaults6: seq<Route>, tunRoute4: bool, rule6: bool, tunRoute6: bool)

  /** Nothing of awl's is left. */
  predicate AwlFree(f: Family) { !f.rule && f.table == {} && !f.tunRoute }

  function Elements(s: seq<Route>): set<Route> { set r | r in s }

  /** Same key, same route. */
  predicate KeysFaithful(u: set<Route>) {
    forall r, s :: r in u && s in u && RouteKey(r) == RouteKey(s) ==> r == s
  }

  // ---- Installing and removing one family --------------------------------------------------------------

  /** Copying the host's defaults into the exemption table, up to the first failure. */
  method CopyDefaults(f: Family, routes: seq<Route>, faults: Faults, tick: nat) returns (g: Family, ok: bool, tock: nat)
    ensures g == f.(table := g.table) && f.table <= g.table <= f.table + Elements(routes)
    ensures ok ==> g.table == f.table + Elements(routes)
    ensures AllWork(faults) ==> ok
  {
    g, tock := f, tick;
    for i := 0 to |routes|
      invariant g == f.(table := g.table) && g.table == f.table + Elements(routes[..i])
    {
      if faults(tock) != Works {
        return g, false, tock + 1;
      }
      tock := tock + 1;
      g := g.(table := g.table + {routes[i]});
      assert Elements(routes[..i + 1]) == Elements(routes[..i]) + {routes[i]};
    }
    assert routes[..|routes|] == routes;
    return g, true, tock;
  }

  method DeleteCopies(f: Family, routes: seq<Route>) returns (g: Family)
    ensures g == f.(table := f.table - Elements(routes))
  {
    g := f;
    for i := 0 to |routes|
      invariant g == f.(table := f.table - Elements(routes[..i]))
    {
      g := g.(table := g.table - {routes[i]});
      assert Elements(routes[..i + 1]) == Elements(routes[..i]) + {routes[i]};
    }
    assert routes[..|routes|] == routes;
  }

  /** Best-effort removal of what an earlier process left; listing the table may fail. */
  method CleanupStale(f: Family, faults: Faults, tick: nat) returns (g: Family, tock: nat)
    ensures g == f.(rule := false, table := g.table) && g.table <= f.table
    ensures faults(tick) == Works ==> g.table == {}
  {
    g, tock := f.(rule := false), tick + 1;
    if faults(tick) == Works {
      g := g.(table := {});
    }
  }

  method Teardown4(f: Family, st: RouteState) returns (g: Family)
    ensures g == f.(tunRoute := f.tunRoute && !st.tunRoute4, table := f.table - Elements(st.defaults4), rule := false)
  {
    g := if st.tunRoute4 then f.(tunRoute := false) else f;
    g := DeleteCopies(g, st.defaults4);
    g := g.(rule := false);
  }

  method Teardown6(f: Family, st: RouteState) returns (g: Family)
    ensures g == f.(tunRoute := f.tunRoute && !st.tunRoute6, table := f.table - Elements(st.defaults6), rule := f.rule && !st.rule6)
  {
    g := if st.tunRoute6 then f.(tunRoute := false) else f;
    g := DeleteCopies(g, st.defaults6);
    if st.rule6 {
      g := g.(rule := false);
    }
  }

  /** setupIPv6TunRoute: a host without IPv6 is not an error. */
  method Setup6(f: Family, st: RouteState, faults: Faults, tick: nat) returns (g: Family, out: RouteState, ok: bool)
    requires !f.rule && !f.tunRoute && !st.rule6 && !st.tunRoute6 && st.defaults6 == []
    ensures out == st.(rule6 := out.rule6, defaults6 := out.defaults6, tunRoute6 := out.tunRoute6)
    ensures g == f.(rule := out.rule6, table := g.table, tunRoute := out.tunRoute6)
    ensures f.table <= g.table <= f.table + Elements(out.defaults6)
    ensures ok ==> out.tunRoute6 == out.rule6 && g.table == f.table + Elements(out.defaults6)
    ensures ok ==> out.defaults6 == if out.rule6 then f.host else []
    ensures AllWork(faults) ==> ok && out.rule6
  {
    g, out := f, st;
    if faults(tick) != Works {
      return g, out, faults(tick) == Unavailable;
    }
    if faults(tick + 1) != Works {
      return g, out, faults(tick + 1) == Unavailable;
    }
    g, out := g.(rule := true), out.(rule6 := true, defaults6 := f.host);
    var tock;
    g, ok, tock := CopyDefaults(g, f.host, faults, tick + 2);
    if !ok {
      return;
    }
    if faults(tock) != Works {
      return g, out, false;
    }
    return g.(tunRoute := true), out.(tunRoute6 := true), true;
  }

  /** The TUN is found and the stale entries of both families can be listed. */
  predicate SweepWorks(faults: Faults) { faults(0) == Works && faults(1) == Works && faults(2) == Works }

  /** The gateway is installed: captured traffic goes to the TUN, marked traffic to the copies. */
  predicate Installed(k4: Family, k6: Family, st: RouteState) {
    && st.tunRoute4 && k4.rule && k4.tunRoute && k4.table <= Elements(st.defaults4)
    && k6.rule == st.rule6 == st.tunRoute6 == k6.tunRoute && k6.table <= Elements(st.defaults6)
  }

  /**
   setupGatewayRoutes.  Whichever call fails, either nothing was touched or nothing of awl's is
   left; on success the table holds exactly the host's defaults.  Leftovers of an earlier process
   can only stay behind where listing them failed.
   */
  method SetupGatewayRoutes(k4: Family, k6: Family, tun: int, faults: Faults)
      returns (g4: Family, g6: Family, st: Option<RouteState>)
    requires !k4.tunRoute && !k6.tunRoute
    ensures g4.host == k4.host && g6.host == k6.host
    ensures AllWork(faults) ==> st.Some? && st.value.rule6
    ensures st.None? ==> (!g4.rule && !g4.tunRoute && !g6.rule && !g6.tunRoute) || (g4, g6) == (k4, k6)
    ensures st.None? && ((AwlFree(k4) && AwlFree(k6)) || SweepWorks(faults)) ==> AwlFree(g4) && AwlFree(g6)
    ensures st.Some? && ((k4.table == {} && k6.table == {}) || SweepWorks(faults)) ==>
      && Installed(g4, g6, st.value) && st.value.tun == tun
      && g4.table == Elements(k4.host) && st.value.defaults4 == k4.host
      && g6.table == Elements(st.value.defaults6) && st.value.defaults6 == (if st.value.rule6 then k6.host else [])
  {
    g4, g6 := k4, k6;
    if faults(0) != Works {
      return g4, g6, None;
    }
    var tick;
    g4, tick := CleanupStale(g4, faults, 1);
    g6, tick := CleanupStale(g6, faults, 2);
    if faults(3) != Works || faults(4) != Works {
      return g4, g6, None;
    }
    var s := RouteState(tun, k4.host, [], false, false, false);
    g4 := g4.(rule := true);
    var ok, tock;
    g4, ok, tock := CopyDefaults(g4, k4.host, faults, 5);
    if ok && faults(tock) == Works {
      g4, s := g4.(tunRoute := true), s.(tunRoute4 := true);
      g6, s, ok := Setup6(g6, s, faults, tock + 1);
      if ok {
        return g4, g6, Some(s);
      }
    }
    g4 := Teardown4(g4, s);
    g6 := Teardown6(g6, s);
    return g4, g6, None;
  }

  // ---- Following the host's defaults -----------------------------------------------------------------

  const TUN_ROUTE_METRIC := 5

  /** awl's own default route, as a listing of the main table shows it. */
  function TunDefault(tun: int): Route { Route(tun, 0, 0, TUN_ROUTE_METRIC, Forwarding, 0) }

  function Listing(f: Family, tun: int): seq<Route> {
    if f.tunRoute then f.host + [TunDefault(tun)] else f.host
  }

  /** Belongs into the exemption table: a forwarding default that does not lead back into the TUN. */
  predicate Exempt(r: Route, tun: int) { r.link != tun && r.kind.Forwarding? }

  function LiveSet(f: Family, tun: int): set<Route> {
    set r | r in f.host && Exempt(r, tun)
  }

  method LiveExemptionDefaults(f: Family, tun: int) returns (live: seq<Route>)
    ensures Elements(live) == LiveSet(f, tun)
    ensures forall r :: r in live <==> r in f.host && r.link != tun && r.kind == Forwarding
  {
    var all := Listing(f, tun);
    live := [];
    for i := 0 to |all|
      invariant Elements(live) == set r | r in all[..i] && Exempt(r, tun)
    {
      assert all[..i + 1] == all[..i] + [all[i]];
      if all[i].link != tun && !all[i].kind.Unreachable? && !all[i].kind.Blackhole? {
        assert Elements(live + [all[i]]) == Elements(live) + {all[i]};
        live := live + [all[i]];
      }
    }
    assert all[..|all|] == all;
    assert forall r :: r in live <==> r in Elements(live);
  }

  function ByKey(routes: seq<Route>): map<Key, Route> {
    if routes == [] then map[]
    else var r := routes[|routes| - 1]; ByKey(routes[..|routes| - 1])[RouteKey(r) := r]
  }

  lemma {:induction false} ByKeyHolds(routes: seq<Route>)
    ensures forall k :: k in ByKey(routes) ==> ByKey(routes)[k] in routes && RouteKey(ByKey(routes)[k]) == k
    ensures forall r :: r in routes ==> RouteKey(r) in ByKey(routes)
  {
    if routes != [] {
      var n := |routes| - 1;
      ByKeyHolds(routes[..n]);
      assert routes == routes[..n] + [routes[n]];
    }
  }

  /** The routes of `a` whose key is not among those of `b`. */
  function Only(a: seq<Route>, b: seq<Route>): set<Route> {
    set k | k in ByKey(a) && k !in ByKey(b) :: ByKey(a)[k]
  }

  lemma OnlyIsDifference(a: seq<Route>, b: seq<Route>)
    requires KeysFaithful(Elements(a) + Elements(b))
    ensures Only(a, b) == Elements(a) - Elements(b)
  {
    ByKeyHolds(a);
    ByKeyHolds(b);
    forall r | r in Elements(a) - Elements(b) ensures r in Only(a, b) {
      var k := RouteKey(r);
      assert ByKey(a)[k] == r;
    }
  }

  /**
   reconcileTableLocked: copies of vanished defaults go, copies of new ones come, except where adding
   one fails.
   */
  method ReconcileTable(f: Family, current: seq<Route>, desired: seq<Route>, faults: Faults, tick: nat)
      returns (g: Family, added: set<Route>, missed: set<Route>, tock: nat)
    ensures g == f.(table := f.table - Only(current, desired) + added)
    ensures added !! missed && added + missed == Only(desired, current)
    ensures AllWork(faults) ==> missed == {}
  {
    var was, now := ByKey(current), ByKey(desired);
    var left := was.Keys;
    g := f;
    while left != {}
      invariant left <= was.Keys
      invariant g == f.(table := f.table - set k | k in was && k !in left && k !in now :: was[k])
    {
      var k :| k in left;
      if k !in now {
        g := g.(table := g.table - {was[k]});
      }
      left := left - {k};
    }
    assert g.table == f.table - Only(current, desired);
    g, added, missed, tock := AddMissing(g, was, now, faults, tick);
    ByKeyHolds(desired);
  }

  /** The new routes whose keys were looked at already. */
  ghost function Fresh(was: map<Key, Route>, now: map<Key, Route>, left: set<Key>): set<Route> {
    set k | k in now && k !in left && k !in was :: now[k]
  }

  method AddMissing(f: Family, was: map<Key, Route>, now: map<Key, Route>, faults: Faults, tick: nat)
      returns (g: Family, added: set<Route>, missed: set<Route>, tock: nat)
    ensures g == f.(table := f.table + added)
    ensures added + missed == set k | k in now && k !in was :: now[k]
    ensures (forall k :: k in now ==> RouteKey(now[k]) == k) ==> added !! missed
    ensures AllWork(faults) ==> missed == {}
  {
    g, added, missed, tock := f, {}, {}, tick;
    var left := now.Keys;
    while left != {}
      invariant left <= now.Keys && g == f.(table := f.table + added)
      invariant added + missed == Fresh(was, now, left)
      invariant (forall k :: k in now ==> RouteKey(now[k]) == k) ==> added !! missed
      invariant AllWork(faults) ==> missed == {}
    {
      var k :| k in left;
      assert Fresh(was, now, left - {k}) == Fresh(was, now, left) + if k in was then {} else {now[k]};
      if k !in was {
        if faults(tock) == Works {
          g, added := g.(table := g.table + {now[k]}), added + {now[k]};
        } else {
          missed := missed + {now[k]};
        }
        tock := tock + 1;
      }
      left := left - {k};
    }
  }

  /** The routes of one key. */
  function WithKey(routes: set<Route>, k: Key): set<Route> {
    set r | r in routes && RouteKey(r) == k
  }

  /**
   What the keys leave to do: under a key on both sides nothing is touched, so the table must hold
   the desired routes already; under a key that went, one copy is removed, so there may be no other;
   under a key that came, one copy is added, so there must be one.
   */
  predicate KeySuffices(table: set<Route>, current: seq<Route>, desired: seq<Route>, k: Key) {
    var was, now := ByKey(current), ByKey(desired);
    && (k in was && k in now ==> WithKey(table, k) == WithKey(Elements(desired), k))
    && (k in was && k !in now ==> WithKey(table, k) <= {was[k]})
    && (k in now && k !in was ==> WithKey(Elements(desired), k) == {now[k]})
  }

  ghost predicate KeysSuffice(table: set<Route>, current: seq<Route>, desired: seq<Route>) {
    forall k :: KeySuffices(table, current, desired, k)
  }

  /**
   The exemption table follows the host: from recorded copies, and whatever keys the routes have, it
   equals the live defaults after a reconcile exactly when the keys suffice and every new copy could
   be added.
   */
  lemma ReconciledIff(table: set<Route>, current: seq<Route>, desired: seq<Route>, added: set<Route>, missed: set<Route>)
    requires table <= Elements(current) && added !! missed && added + missed == Only(desired, current)
    ensures table - Only(current, desired) + added == Elements(desired)
            <==> KeysSuffice(table, current, desired) && missed == {}
  {
    var after := table - Only(current, desired) + added;
    ByKeyHolds(current);
    ByKeyHolds(desired);
    if KeysSuffice(table, current, desired) && missed == {} {
      forall r ensures r in after <==> r in Elements(desired) {
        SufficesForOne(table, current, desired, r);
      }
    }
    if after == Elements(desired) {
      MissedIsSeen(table, current, desired, added, missed);
      FollowedSuffices(table, current, desired);
    }
  }

  lemma SufficesForOne(table: set<Route>, current: seq<Route>, desired: seq<Route>, r: Route)
    requires table <= Elements(current) && KeysSuffice(table, current, desired)
    ensures r in table - Only(current, desired) + Only(desired, current) <==> r in Elements(desired)
  {
    ByKeyHolds(current);
    ByKeyHolds(desired);
    var k := RouteKey(r);
    assert KeySuffices(table, current, desired, k);
    assert r in table <==> r in WithKey(table, k);
    assert r in Elements(desired) <==> r in WithKey(Elements(desired), k);
    OnlyOfKey(current, desired, r);
    OnlyOfKey(desired, current, r);
  }

  /** A route is among those of `a` alone exactly if it is the last of its key there and `b` has none. */
  lemma OnlyOfKey(a: seq<Route>, b: seq<Route>, r: Route)
    ensures r in Only(a, b) <==> RouteKey(r) in ByKey(a) && RouteKey(r) !in ByKey(b) && ByKey(a)[RouteKey(r)] == r
  {
    ByKeyHolds(a);
  }

  lemma MissedIsSeen(table: set<Route>, current: seq<Route>, desired: seq<Route>, added: set<Route>, missed: set<Route>)
    requires table <= Elements(current) && added !! missed && added + missed == Only(desired, current)
    requires table - Only(current, desired) + added == Elements(desired)
    ensures missed == {}
  {
    ByKeyHolds(current);
    ByKeyHolds(desired);
    forall r ensures r !in missed {
      OnlyOfKey(desired, current, r);
    }
  }

  lemma FollowedSuffices(table: set<Route>, current: seq<Route>, desired: seq<Route>)
    requires table <= Elements(current) && table - Only(current, desired) + Only(desired, current) == Elements(desired)
    ensures KeysSuffice(table, current, desired)
  {
    ByKeyHolds(current);
    ByKeyHolds(desired);
    var after := table - Only(current, desired) + Only(desired, current);
    forall k ensures KeySuffices(table, current, desired, k) {
      assert forall r :: RouteKey(r) == k ==> (r in after <==> r in Elements(desired));
      assert forall r :: r in Only(current, desired) && RouteKey(r) == k ==> r == ByKey(current)[k];
      assert forall r :: r in Only(desired, current) && RouteKey(r) == k ==> r == ByKey(desired)[k];
    }
  }

  /** The lists have the same routes under a key, or one of them has none and the other one. */
  predicate KeyAgrees(current: seq<Route>, desired: seq<Route>, k: Key) {
    var was, now := WithKey(Elements(current), k), WithKey(Elements(desired), k);
    was == now || (was == {} && |now| == 1) || (now == {} && |was| == 1)
  }

  lemma KeyAgreesIff(current: seq<Route>, desired: seq<Route>, k: Key)
    ensures k in ByKey(current) && k in ByKey(desired) ==>
      (KeyAgrees(current, desired, k) <==> WithKey(Elements(current), k) == WithKey(Elements(desired), k))
    ensures k in ByKey(current) && k !in ByKey(desired) ==>
      (KeyAgrees(current, desired, k) <==> WithKey(Elements(current), k) <= {ByKey(current)[k]})
    ensures k in ByKey(desired) && k !in ByKey(current) ==>
      (KeyAgrees(current, desired, k) <==> WithKey(Elements(desired), k) == {ByKey(desired)[k]})
    ensures k !in ByKey(current) && k !in ByKey(desired) ==> KeyAgrees(current, desired, k)
  {
    RoutesOfKey(current, k);
    RoutesOfKey(desired, k);
  }

  lemma RoutesOfKey(routes: seq<Route>, k: Key)
    ensures k !in ByKey(routes) <==> WithKey(Elements(routes), k) == {}
    ensures k in ByKey(routes) ==> ByKey(routes)[k] in WithKey(Elements(routes), k)
    ensures k in ByKey(routes) ==> (|WithKey(Elements(routes), k)| == 1 <==> WithKey(Elements(routes), k) == {ByKey(routes)[k]})
  {
    ByKeyHolds(routes);
    if k in ByKey(routes) {
      OneRoute(WithKey(Elements(routes), k), ByKey(routes)[k]);
    }
  }

  /** From a table in step, with every add working, a reconcile is exact exactly when the lists agree under every key. */
  lemma InStepIff(current: seq<Route>, desired: seq<Route>)
    ensures Elements(current) - Only(current, desired) + Only(desired, current) == Elements(desired)
            <==> forall k :: KeyAgrees(current, desired, k)
  {
    ReconciledIff(Elements(current), current, desired, Only(desired, current), {});
    forall k ensures KeyAgrees(current, desired, k) <==> KeySuffices(Elements(current), current, desired, k) {
      KeyAgreesIff(current, desired, k);
    }
  }

  lemma OneRoute(routes: set<Route>, r: Route)
    requires r in routes
    ensures |routes| == 1 <==> routes == {r}
  {
    assert routes == {r} + (routes - {r});
  }

  /** When keys tell routes apart, the table holds only recorded copies, and needs to hold those to keep. */
  lemma ReconciledIfFaithful(table: set<Route>, current: seq<Route>, desired: seq<Route>, added: set<Route>, missed: set<Route>)
    requires KeysFaithful(Elements(current) + Elements(desired)) && table <= Elements(current)
    requires added !! missed && added + missed == Only(desired, current)
    ensures table - Only(current, desired) + added <= Elements(desired)
    ensures table - Only(current, desired) + added == Elements(desired)
            <==> Elements(current) * Elements(desired) <= table && missed == {}
  {
    OnlyIsDifference(current, desired);
    assert Elements(desired) + Elements(current) == Elements(current) + Elements(desired);
    OnlyIsDifference(desired, current);
    var after := table - Only(current, desired) + added;
    if after == Elements(desired) {
      assert forall r :: r in missed ==> r in Elements(desired) && r !in after;
    }
  }

  /** One default replaced by another is followed exactly if they differ in link, gateway, source or metric, or not at all. */
  lemma ReplacedIff(was: Route, now: Route)
    ensures {was} - Only([was], [now]) + Only([now], [was]) == {now} <==>
      was == now || was.link != now.link || was.gw != now.gw || was.src != now.src || was.metric != now.metric
  {
    OnlyOfKey([was], [now], was);
    OnlyOfKey([now], [was], now);
    OnlyOfKey([now], [was], was);
    if RouteKey(was) == RouteKey(now) && was != now {
      AmbiguousKeyLeavesCopy(was, now);
    } else {
      OneEach(was, now);
    }
  }

  lemma OneEach(was: Route, now: Route)
    requires was == now || RouteKey(was) != RouteKey(now)
    ensures {was} - Only([was], [now]) + Only([now], [was]) == {now}
  {
    forall r ensures (r in Only([was], [now]) <==> r == was && was != now) && (r in Only([now], [was]) <==> r == now && was != now) {
      OnlyOfKey([was], [now], r);
      OnlyOfKey([now], [was], r);
    }
  }

  /**
   The simplest case in which the keys do not suffice: a default replaced by another one with the same
   key is neither removed nor added, and what disabling then removes is not what the table holds.
   */
  lemma AmbiguousKeyLeavesCopy(was: Route, now: Route)
    requires RouteKey(was) == RouteKey(now) && was != now
    ensures {was} - Only([was], [now]) + Only([now], [was]) == {was}
    ensures {was} - Elements([now]) == {was} && !KeysSuffice({was}, [was], [now])
  {
    var k := RouteKey(now);
    assert now in WithKey(Elements([now]), k) && now !in WithKey({was}, k);
    assert !KeySuffices({was}, [was], [now], k);
  }

  // ---- The manager -----------------------------------------------------------------------------------

  class Manager {
    /** All default routes the host ever has in either family; their keys tell those of a family apart. */
    ghost const universe4: set<Route>
    ghost const universe6: set<Route>
    var k4: Family
    var k6: Family
    var state: Option<RouteState>

    ghost predicate Valid()
      reads this
    {
      && KeysFaithful(universe4) && KeysFaithful(universe6)
      && Elements(k4.host) <= universe4 && Elements(k6.host) <= universe6
      && match state
         case None => AwlFree(k4) && AwlFree(k6)
         case Some(st) =>
           Installed(k4, k6, st) && Elements(st.defaults4) <= universe4 && Elements(st.defaults6) <= universe6
    }

    /** The table holds exactly what is recorded. */
    ghost predicate InSync()
      reads this
    {
      state.Some? ==> k4.table == Elements(state.value.defaults4) && k6.table == Elements(state.value.defaults6)
    }

    constructor (host4: seq<Route>, host6: seq<Route>, ghost universe4: set<Route>, ghost universe6: set<Route>)
      requires KeysFaithful(universe4) && KeysFaithful(universe6) && Elements(host4) <= universe4 && Elements(host6) <= universe6
      ensures Valid() && state.None? && k4.host == host4 && k6.host == host6
      ensures this.universe4 == universe4 && this.universe6 == universe6
    {
      this.universe4, this.universe6, state := universe4, universe6, None;
      k4, k6 := Family(host4, {}, false, false), Family(host6, {}, false, false);
    }

    method EnableClientRoutes(tun: int, faults: Faults) returns (ok: bool)
      requires Valid()
      modifies this
      ensures Valid() && k4.host == old(k4.host) && k6.host == old(k6.host)
      ensures ok <==> state.Some?
      ensures old(state).Some? || !ok ==> unchanged(this)
      ensures ok && old(state).None? ==> InSync() && state.value.tun == tun && state.value.defaults4 == k4.host
      ensures AllWork(faults) ==> ok && (old(state).None? ==> state.value.rule6)
    {
      if state.Some? {
        return true;
      }
      var g4, g6, st := SetupGatewayRoutes(k4, k6, tun, faults);
      k4, k6, state := g4, g6, st;
      ok := st.Some?;
    }

    /** Whatever happened since, disabling leaves nothing of awl's behind and the host's defaults alone. */
    method DisableClientRoutes()
      requires Valid()
      modifies this
      ensures Valid() && state.None? && AwlFree(k4) && AwlFree(k6)
      ensures k4.host == old(k4.host) && k6.host == old(k6.host)
    {
      if state.Some? {
        var st := state.value;
        state := None;
        k4 := Teardown4(k4, st);
        k6 := Teardown6(k6, st);
      }
    }

    /** The host's defaults change under us. */
    method HostChanges(host4: seq<Route>, host6: seq<Route>)
      requires Valid() && Elements(host4) <= universe4 && Elements(host6) <= universe6
      modifies `k4, `k6
      ensures Valid() && k4 == old(k4).(host := host4) && k6 == old(k6).(host := host6) && (old(InSync()) ==> InSync())
    {
      k4, k6 := k4.(host := host4), k6.(host := host6);
    }

    /** One tick of the route monitor. */
    method Reconcile(faults: Faults)
      requires Valid()
      modifies this
      ensures Valid() && state.Some? == old(state).Some? && k4.host == old(k4.host) && k6.host == old(k6.host)
      ensures state.Some? ==>
        state.value == old(state.value).(defaults4 := state.value.defaults4, defaults6 := state.value.defaults6)
      ensures k4.rule == old(k4.rule) && k4.tunRoute == old(k4.tunRoute) && k6.rule == old(k6.rule) && k6.tunRoute == old(k6.tunRoute)
      ensures state.Some? && old(InSync()) && AllWork(faults) ==>
        && InSync() && k4.table == LiveSet(k4, state.value.tun)
        && (state.value.rule6 ==> k6.table == LiveSet(k6, state.value.tun))
    {
      if state.None? {
        return;
      }
      var tick := 1;
      if faults(0) == Works {
        tick := Reconcile4(faults, 1);
      }
      if state.value.rule6 && faults(tick) == Works {
        Reconcile6(faults, tick + 1);
      }
    }

    method Reconcile4(faults: Faults, tick: nat) returns (tock: nat)
      requires Valid() && state.Some?
      modifies `k4, `state
      ensures Valid() && k4 == old(k4).(table := k4.table) && state.Some?
      ensures state.value == old(state.value).(defaults4 := state.value.defaults4)
      ensures Elements(state.value.defaults4) == LiveSet(k4, state.value.tun)
      ensures old(InSync()) && AllWork(faults) ==> InSync()
    {
      var st := state.value;
      var live := LiveExemptionDefaults(k4, st.tun);
      var g, added, missed, t := ReconcileTable(k4, st.defaults4, live, faults, tick);
      ReconciledIfFaithful(k4.table, st.defaults4, live, added, missed);
      k4, state, tock := g, Some(st.(defaults4 := live)), t;
    }

    method Reconcile6(faults: Faults, tick: nat)
      requires Valid() && state.Some?
      modifies `k6, `state
      ensures Valid() && k6 == old(k6).(table := k6.table) && state.Some?
      ensures state.value == old(state.value).(defaults6 := state.value.defaults6)
      ensures Elements(state.value.defaults6) == LiveSet(k6, state.value.tun)
      ensures old(InSync()) && AllWork(faults) ==> InSync()
    {
      var st := state.value;
      var live := LiveExemptionDefaults(k6, st.tun);
      var g, added, missed, t := ReconcileTable(k6, st.defaults6, live, faults, tick);
      ReconciledIfFaithful(k6.table, st.defaults6, live, added, missed);
      k6, state := g, Some(st.(defaults6 := live));
    }
  }

  datatype Event = HostEvent(host4: seq<Route>, host6: seq<Route>) | MonitorTick(faults: Faults)

  /** Both exemption tables hold exactly the live defaults. */
  predicate FollowsHost(k: (Family, Family), tun: int) {
    k.0.table == LiveSet(k.0, tun) && k.1.table == LiveSet(k.1, tun)
  }

  ghost predicate FaultFree(faults: Faults, events: seq<Event>) {
    AllWork(faults) && forall i :: 0 <= i < |events| && events[i].MonitorTick? ==> AllWork(events[i].faults)
  }

  /**
   A whole session: enable, then any host changes and monitor ticks, then disable.  Nothing of awl's
   is left, and the host has the defaults it gave itself.  `trace` is the kernel after every event:
   when no call fails, both tables equal the live defaults after every tick.
   */
  method Session(m: Manager, tun: int, faults: Faults, events: seq<Event>) returns (ghost trace: seq<(Family, Family)>)
    requires m.Valid()
    requires forall i :: 0 <= i < |events| && events[i].HostEvent? ==>
      Elements(events[i].host4) <= m.universe4 && Elements(events[i].host6) <= m.universe6
    modifies m
    ensures m.Valid() && AwlFree(m.k4) && AwlFree(m.k6)
    ensures (m.k4.host, m.k6.host) == LastHost((old(m.k4.host), old(m.k6.host)), events)
    ensures |trace| == |events| && forall i :: 0 <= i < |events| ==>
      (trace[i].0.host, trace[i].1.host) == LastHost((old(m.k4.host), old(m.k6.host)), events[..i + 1])
    ensures old(m.state).None? && FaultFree(faults, events) ==>
      forall i :: 0 <= i < |events| && events[i].MonitorTick? ==> FollowsHost(trace[i], tun)
  {
    var ok := m.EnableClientRoutes(tun, faults);
    ghost var hosts := (m.k4.host, m.k6.host);
    trace := [];
    for i := 0 to |events|
      invariant m.Valid() && (m.k4.host, m.k6.host) == LastHost(hosts, events[..i])
      invariant |trace| == i && forall j :: 0 <= j < i ==> (trace[j].0.host, trace[j].1.host) == LastHost(hosts, events[..j + 1])
      invariant old(m.state).None? && FaultFree(faults, events) ==>
        m.InSync() && m.state.Some? && m.state.value.tun == tun && m.state.value.rule6
      invariant old(m.state).None? && FaultFree(faults, events) ==>
        forall j :: 0 <= j < i && events[j].MonitorTick? ==> FollowsHost(trace[j], tun)
    {
      assert events[..i + 1][..i] == events[..i];
      match events[i] {
        case HostEvent(host4, host6) => m.HostChanges(host4, host6);
        case MonitorTick(f) => m.Reconcile(f);
      }
      trace := trace + [(m.k4, m.k6)];
    }
    assert events[..|events|] == events;
    m.DisableClientRoutes();
  }

  /** The host's defaults after these events. */
  function LastHost(hosts: (seq<Route>, seq<Route>), events: seq<Event>): (seq<Route>, seq<Route>) {
    if events == [] then hosts
    else match events[|events| - 1]
         case HostEvent(host4, host6) => (host4, host6)
         case MonitorTick(_) => LastHost(hosts, events[..|events| - 1])
  }
}
