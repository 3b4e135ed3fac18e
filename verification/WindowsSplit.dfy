/**
 Split tunnelling of the Windows gateway client (vpn/netstate/routes_windows.go,
 vpn/netstate/uplink_windows.go): bypass prefixes on the physical uplink against the /1 captures
 under longest-prefix match, and the weighted firewall fence around them.
 */
module WindowsSplit {
  import opened Wrappers
  import opened Addresses
  import opened Prefixes

  // ---- The configured bypass -------------------------------------------------------------------------

  /** A configured entry after parsing. */
  datatype Entry = Blank | Malformed | Cidr(prefix: Prefix)

  /** More specific than the captures. */
  predicate Narrow(e: Entry) { e.Blank? || (e.Cidr? && e.prefix.bits > 1) }

  function Networks(entries: seq<Entry>): set<Prefix>
    requires forall i :: 0 <= i < |entries| && entries[i].Cidr? ==> ValidPrefix(entries[i].prefix)
  {
    set i | 0 <= i < |entries| && entries[i].Cidr? :: Masked(entries[i].prefix)
  }

  /** Accepts exactly lists of narrow prefixes, and keeps each network once. */
  method ParseClientBypassCIDRs(entries: seq<Entry>) returns (r: Option<seq<Prefix>>)
    requires forall i :: 0 <= i < |entries| && entries[i].Cidr? ==> ValidPrefix(entries[i].prefix)
    ensures r.Some? <==> forall i :: 0 <= i < |entries| ==> entries[i].Blank? || (entries[i].Cidr? && entries[i].prefix.bits > 1)
    ensures r.Some? ==> (set p | p in r.value) == Networks(entries)
    ensures r.Some? ==> forall i, j :: 0 <= i < j < |r.value| ==> r.value[i] != r.value[j]
    ensures r.Some? ==> forall p :: p in r.value ==> ValidPrefix(p) && p.bits > 1
  {
    var out: seq<Prefix> := [];
    for i := 0 to |entries|
      invariant forall j :: 0 <= j < i ==> Narrow(entries[j])
      invariant (set p | p in out) == Networks(entries[..i])
      invariant forall j, k :: 0 <= j < k < |out| ==> out[j] != out[k]
      invariant forall p :: p in out ==> ValidPrefix(p) && p.bits > 1
    {
      NetworksSnoc(entries, i);
      if entries[i].Malformed? {
        return None;
      }
      if entries[i].Cidr? {
        var p := Masked(entries[i].prefix);
        if p.bits <= 1 {
          return None;
        }
        if p !in out {
          MaskedCovers(entries[i].prefix, false, 0);
          assert (set q | q in out + [p]) == (set q | q in out) + {p};
          out := out + [p];
        }
      }
    }
    assert entries[..|entries|] == entries;
    return Some(out);
  }

  lemma NetworksSnoc(entries: seq<Entry>, i: nat)
    requires i < |entries| && forall j :: 0 <= j < |entries| && entries[j].Cidr? ==> ValidPrefix(entries[j].prefix)
    ensures Networks(entries[..i + 1]) == Networks(entries[..i]) + if entries[i].Cidr? then {Masked(entries[i].prefix)} else {}
  {
  }

  // ---- The uplink ------------------------------------------------------------------------------------

  datatype Candidate = Candidate(luid: nat, metric: nat, up: bool)

  predicate Eligible(c: Candidate, exclude: nat) { c.up && c.luid != exclude }

  /** Eligible, with the lowest metric, and the first of several. */
  predicate IsBest(routes: seq<Candidate>, exclude: nat, i: int) {
    && 0 <= i < |routes| && Eligible(routes[i], exclude)
    && forall j :: 0 <= j < |routes| && Eligible(routes[j], exclude) ==>
         routes[i].metric < routes[j].metric || (routes[i].metric == routes[j].metric && i <= j)
  }

  method BestUplink(routes: seq<Candidate>, exclude: nat) returns (best: Option<Candidate>)
    ensures best.None? <==> forall i :: 0 <= i < |routes| ==> !routes[i].up || routes[i].luid == exclude
    ensures best.Some? ==> best.value.up && best.value.luid != exclude
    ensures best.Some? ==> exists i :: IsBest(routes, exclude, i) && routes[i] == best.value
  {
    best := None;
    ghost var at := 0;
    for n := 0 to |routes|
      invariant best.None? <==> forall i :: 0 <= i < n ==> !Eligible(routes[i], exclude)
      invariant best.Some? ==> 0 <= at < n && routes[at] == best.value && Eligible(routes[at], exclude)
      invariant best.Some? ==> forall j :: 0 <= j < n && Eligible(routes[j], exclude) ==>
        routes[at].metric < routes[j].metric || (routes[at].metric == routes[j].metric && at <= j)
    {
      var r := routes[n];
      if r.up && r.luid != exclude && (best.None? || r.metric < best.value.metric) {
        best, at := Some(r), n;
      }
    }
    assert best.Some? ==> IsBest(routes, exclude, at);
  }

  // ---- The routing table -----------------------------------------------------------------------------

  datatype Iface = Tun | Uplink(luid: nat)

  datatype Row = Row(prefix: Prefix, iface: Iface, metric: nat)

  const TUN_ROUTE_METRIC := 5
  const BYPASS_ROUTE_METRIC := 5000

  /** The two halves of the address space, through the tunnel. */
  function Captures(v6: bool): set<Row> {
    {Row(Prefix(v6, 0, 1), Tun, TUN_ROUTE_METRIC),
     Row(Prefix(v6, Pow2(Width(v6) - 1), 1), Tun, TUN_ROUTE_METRIC)}
  }

  function Matching(table: set<Row>, v6: bool, a: nat): set<Row> {
    set r | r in table && Covers(r.prefix, v6, a)
  }

  /** The most specific of some rows, among equals the one with the lowest metric. */
  predicate Longest(rows: set<Row>, row: Row) {
    row in rows && forall r :: r in rows ==>
      r.prefix.bits < row.prefix.bits || (r.prefix.bits == row.prefix.bits && row.metric <= r.metric)
  }

  /** The row longest-prefix match takes. */
  predicate Selected(table: set<Row>, v6: bool, a: nat, row: Row) {
    Longest(Matching(table, v6, a), row)
  }

  /** The host's own defaults, physical ones. */
  predicate HostDefault(r: Row) { r.prefix.bits == 0 && r.iface.Uplink? }

  /** A bypass row. */
  predicate Bypass(r: Row) { ValidPrefix(r.prefix) && r.prefix.bits > 1 && r.iface.Uplink? }

  lemma HalfCovers(v6: bool, a: nat)
    requires a < Pow2(Width(v6))
    ensures exists r :: r in Captures(v6) && Covers(r.prefix, v6, a)
  {
    var half := Pow2(Width(v6) - 1);
    assert Pow2(Width(v6)) == 2 * half;
    var low, high := Prefix(v6, 0, 1), Prefix(v6, half, 1);
    assert Block(low) == Block(high) == half;
    if a < half {
      Quotient(a, half, 0);
      Quotient(0, half, 0);
      assert Row(low, Tun, TUN_ROUTE_METRIC) in Captures(v6) && Covers(low, v6, a);
    } else {
      Quotient(a, half, 1);
      Quotient(half, half, 1);
      assert Row(high, Tun, TUN_ROUTE_METRIC) in Captures(v6) && Covers(high, v6, a);
    }
  }

  /** Longest-prefix match finds a row wherever one matches. */
  lemma {:induction false} LongestExists(rows: set<Row>)
    requires rows != {}
    ensures exists row :: Longest(rows, row)
  {
    var r :| r in rows;
    if rows == {r} {
      assert Longest(rows, r);
    } else {
      LongestExists(rows - {r});
      var best :| Longest(rows - {r}, best);
      var better := r.prefix.bits > best.prefix.bits || (r.prefix.bits == best.prefix.bits && r.metric < best.metric);
      assert Longest(rows, if better then r else best);
    }
  }

  /** The rows that matter: the host's physical defaults, the captures, and the bypass rows. */
  predicate ClientTable(table: set<Row>, host: set<Row>, captures: set<Row>, bypass: set<Row>, v6: bool) {
    && table == host + captures + bypass && Captures(v6) <= captures
    && (forall r :: r in host ==> HostDefault(r)) && (forall r :: r in captures ==> Capture(r))
    && (forall r :: r in bypass ==> Bypass(r))
  }

  /**
   Split tunnelling: with the captures in place every destination has a route, and longest-prefix
   match sends it to a physical uplink exactly when an installed bypass prefix covers it.
   */
  lemma SplitTunnel(table: set<Row>, host: set<Row>, captures: set<Row>, bypass: set<Row>, v6: bool, a: nat)
    requires ClientTable(table, host, captures, bypass, v6) && a < Pow2(Width(v6))
    ensures exists row :: Selected(table, v6, a, row)
    ensures forall row :: Selected(table, v6, a, row) ==>
      && (row.iface.Uplink? <==> Matching(bypass, v6, a) != {})
      && (row.iface.Uplink? ==> row in bypass)
  {
    HalfCovers(v6, a);
    var c :| c in Captures(v6) && Covers(c.prefix, v6, a);
    assert c in Matching(table, v6, a);
    LongestExists(Matching(table, v6, a));
    forall row | Selected(table, v6, a, row)
      ensures (row.iface.Uplink? <==> Matching(bypass, v6, a) != {}) && (row.iface.Uplink? ==> row in bypass)
    {
      LongestWins(Matching(table, v6, a), row, c);
      assert Matching(bypass, v6, a) == Matching(table, v6, a) * bypass;
    }
  }

  predicate Capture(r: Row) { r.prefix.bits == 1 && r.iface == Tun }

  lemma LongestWins(rows: set<Row>, row: Row, c: Row)
    requires Longest(rows, row) && c in rows && Capture(c)
    requires forall r :: r in rows ==> HostDefault(r) || Capture(r) || Bypass(r)
    ensures row.iface.Uplink? <==> exists r :: r in rows && Bypass(r)
    ensures row.iface.Uplink? ==> Bypass(row)
  {
  }

  /** With no bypass installed, as without an uplink, everything stays in the tunnel. */
  lemma NoUplinkStaysInside(table: set<Row>, host: set<Row>, captures: set<Row>, v6: bool, a: nat)
    requires ClientTable(table, host, captures, {}, v6) && a < Pow2(Width(v6))
    ensures exists row :: Selected(table, v6, a, row)
    ensures forall row :: Selected(table, v6, a, row) ==> row.iface == Tun
  {
    SplitTunnel(table, host, captures, {}, v6, a);
  }

  /** The rows awl has installed, and the table they are in. */
  class ClientRoutes {
    const prefixes: seq<Prefix>
    /** Whether the adapter has IPv6, and so captures for it. */
    const has6: bool
    ghost const host: set<Row>
    ghost const captures: set<Row>
    var bypassRoutes: seq<Row>
    var table: set<Row>

    ghost predicate Valid()
      reads this
    {
      && (forall p :: p in prefixes ==> ValidPrefix(p) && p.bits > 1)
      && (forall r :: r in host ==> HostDefault(r))
      && (forall r :: r in captures ==> Capture(r)) && (forall v6 :: !v6 || has6 ==> Captures(v6) <= captures)
      && (forall r :: r in bypassRoutes ==> Bypass(r) && r.prefix in prefixes)
      && table == host + captures + set r | r in bypassRoutes
    }

    function BypassRows(): set<Row>
      reads this
    {
      set r | r in bypassRoutes
    }

    /** A valid object's table is one the routing theorems are about, and its fence permits what it routes. */
    lemma RoutesAndFenceAgree(v6: bool, own: bool, dst: nat)
      requires Valid() && (!v6 || has6) && dst < Pow2(Width(v6))
      ensures ClientTable(table, host, captures, BypassRows(), v6)
      ensures exists row :: Selected(table, v6, dst, row)
      ensures forall row :: Selected(table, v6, dst, row) ==>
        && (row.iface.Uplink? <==> Matching(BypassRows(), v6, dst) != {})
        && Passes(prefixes, Flow(v6, own, row.iface, dst))
    {
      SplitTunnel(table, host, captures, BypassRows(), v6, dst);
      RoutedIsPermitted(table, host, captures, BypassRows(), prefixes, v6, own, dst);
    }

    /**
     replaceBypassRoutes: the old rows go; a row comes for exactly the prefixes whose family has an
     uplink and for which creating it works.
     */
    method ReplaceBypassRoutes(uplink4: Option<nat>, uplink6: Option<nat>, works: nat -> bool)
      requires Valid()
      modifies `bypassRoutes, `table
      ensures Valid() && forall r :: r in bypassRoutes ==>
        r.iface.Uplink? && Some(r.iface.luid) == (if r.prefix.v6 then uplink6 else uplink4) && r.metric == BYPASS_ROUTE_METRIC
      ensures forall p :: Routed(p) <==> exists i :: 0 <= i < |prefixes| && prefixes[i] == p
                                                   && (if p.v6 then uplink6 else uplink4).Some? && works(i)
      ensures uplink4.None? && uplink6.None? ==> bypassRoutes == []
    {
      DeleteBypassRoutes();
      for i := 0 to |prefixes|
        invariant Valid() && forall r :: r in bypassRoutes ==>
          r.iface.Uplink? && Some(r.iface.luid) == (if r.prefix.v6 then uplink6 else uplink4) && r.metric == BYPASS_ROUTE_METRIC
        invariant forall p :: Routed(p) <==> exists j :: 0 <= j < i && prefixes[j] == p
                                                       && (if p.v6 then uplink6 else uplink4).Some? && works(j)
        invariant uplink4.None? && uplink6.None? ==> bypassRoutes == []
      {
        var uplink := UplinkOf(prefixes[i], uplink4, uplink6);
        if uplink.Some? && works(i) {
          AddBypassRoute(Row(prefixes[i], uplink.value, BYPASS_ROUTE_METRIC));
        }
      }
    }

    ghost predicate Routed(p: Prefix)
      reads this
    {
      exists r :: r in bypassRoutes && r.prefix == p
    }

    method DeleteBypassRoutes()
      requires Valid()
      modifies `bypassRoutes, `table
      ensures Valid() && bypassRoutes == []
    {
      ghost var rest := host + captures;
      assert forall r :: r in rest ==> r !in bypassRoutes;
      table := table - set r | r in bypassRoutes;
      bypassRoutes := [];
    }

    method AddBypassRoute(row: Row)
      requires Valid() && Bypass(row) && row.prefix in prefixes
      modifies `bypassRoutes, `table
      ensures Valid() && bypassRoutes == old(bypassRoutes) + [row]
      ensures forall p :: Routed(p) <==> old(Routed(p)) || p == row.prefix
    {
      table := table + {row};
      assert (set r | r in bypassRoutes + [row]) == (set r | r in bypassRoutes) + {row};
      bypassRoutes := bypassRoutes + [row];
      assert row in bypassRoutes;
    }
  }

  function UplinkOf(p: Prefix, uplink4: Option<nat>, uplink6: Option<nat>): Option<Iface> {
    var u := if p.v6 then uplink6 else uplink4;
    if u.Some? then Some(Uplink(u.value)) else None
  }

  // ---- The fence -------------------------------------------------------------------------------------

  const WEIGHT_PERMIT_APP := 4000
  const WEIGHT_PERMIT_TUN := 3000
  const WEIGHT_PERMIT_BYPASS := 2500
  const WEIGHT_PERMIT_LOCAL := 2000
  const WEIGHT_BLOCK := 1000

  /** Loopback, private, multicast and broadcast destinations. */
  const LOCAL_DST4: seq<Prefix> := [
    Prefix(false, 0x7f00_0000, 8), Prefix(false, 0x0a00_0000, 8), Prefix(false, 0xac10_0000, 12),
    Prefix(false, 0xc0a8_0000, 16), Prefix(false, 0x6440_0000, 10), Prefix(false, 0xa9fe_0000, 16),
    Prefix(false, 0xe000_0000, 4), Prefix(false, 0xffff_ffff, 32)]

  const LOCAL_DST6: seq<Prefix> := [
    Prefix(true, 1, 128), Prefix(true, 0xfe80_0000_0000_0000_0000_0000_0000_0000, 10),
    Prefix(true, 0xfc00_0000_0000_0000_0000_0000_0000_0000, 7), Prefix(true, 0xff00_0000_0000_0000_0000_0000_0000_0000, 8)]

  function LocalDst(v6: bool): (local: seq<Prefix>)
    ensures local != []
  {
    if v6 then LOCAL_DST6 else LOCAL_DST4
  }

  /** Several prefixes on one field are alternatives; a rule without conditions matches everything. */
  datatype Condition = OwnProcess | ThroughTun | Remote(prefixes: seq<Prefix>) | Unconditional

  datatype FenceRule = FenceRule(v6: bool, weight: nat, when: Condition, permit: bool)

  /** An outbound connection: by awl itself or another process, over an interface, to a destination. */
  datatype Flow = Flow(v6: bool, own: bool, iface: Iface, dst: nat)

  predicate Matches(r: FenceRule, f: Flow) {
    && r.v6 == f.v6
    && match r.when
       case OwnProcess => f.own
       case ThroughTun => f.iface == Tun
       case Remote(prefixes) => prefixes == [] || CoveredBy(prefixes, f.v6, f.dst)
       case Unconditional => true
  }

  /** Within the sublayer the matching rule of the highest weight decides. */
  predicate Decides(rules: seq<FenceRule>, f: Flow, r: FenceRule) {
    r in rules && Matches(r, f) && forall o :: o in rules && Matches(o, f) ==> o.weight <= r.weight
  }

  function OfFamily(prefixes: seq<Prefix>, v6: bool): seq<Prefix> {
    if prefixes == [] then []
    else OfFamily(prefixes[..|prefixes| - 1], v6) + if prefixes[|prefixes| - 1].v6 == v6 then [prefixes[|prefixes| - 1]] else []
  }

  lemma {:induction false} OfFamilyHolds(prefixes: seq<Prefix>, v6: bool)
    ensures forall p :: p in OfFamily(prefixes, v6) <==> p in prefixes && p.v6 == v6
  {
    if prefixes != [] {
      var n := |prefixes| - 1;
      OfFamilyHolds(prefixes[..n], v6);
      assert prefixes == prefixes[..n] + [prefixes[n]];
    }
  }

  /** The rules of one layer. */
  function Layer(v6: bool, bypass: seq<Prefix>): seq<FenceRule> {
    [FenceRule(v6, WEIGHT_PERMIT_APP, OwnProcess, true),
     FenceRule(v6, WEIGHT_PERMIT_TUN, ThroughTun, true),
     FenceRule(v6, WEIGHT_PERMIT_LOCAL, Remote(LocalDst(v6)), true)]
    + (if bypass == [] then [] else [FenceRule(v6, WEIGHT_PERMIT_BYPASS, Remote(bypass), true)])
    + [FenceRule(v6, WEIGHT_BLOCK, Unconditional, false)]
  }

  function Fence(bypass: seq<Prefix>): seq<FenceRule> {
    Layer(false, OfFamily(bypass, false)) + Layer(true, OfFamily(bypass, true))
  }

  method ClientFenceRules(bypass: seq<Prefix>) returns (rules: seq<FenceRule>)
    ensures rules == Fence(bypass)
  {
    var bypass4, bypass6: seq<Prefix> := [], [];
    for i := 0 to |bypass|
      invariant bypass4 == OfFamily(bypass[..i], false) && bypass6 == OfFamily(bypass[..i], true)
    {
      assert bypass[..i + 1][..i] == bypass[..i];
      if bypass[i].v6 {
        bypass6 := bypass6 + [bypass[i]];
      } else {
        bypass4 := bypass4 + [bypass[i]];
      }
    }
    assert bypass[..|bypass|] == bypass;
    rules := Layer(false, bypass4) + Layer(true, bypass6);
  }

  lemma LayerVerdict(v6: bool, bypass: seq<Prefix>, f: Flow, r: FenceRule)
    requires f.v6 == v6 && Decides(Layer(v6, bypass), f, r)
    ensures r.permit <==>
      f.own || f.iface == Tun || CoveredBy(LocalDst(v6), v6, f.dst) || CoveredBy(bypass, v6, f.dst)
  {
  }

  /** Some rule decides every connection, if only the block at the end of its layer. */
  lemma SomeRuleDecides(bypass: seq<Prefix>, f: Flow)
    ensures exists r :: Decides(Fence(bypass), f, r)
  {
    var layer := Layer(f.v6, OfFamily(bypass, f.v6));
    var block := layer[|layer| - 1];
    assert block in Fence(bypass) && Matches(block, f);
    HeaviestExists(Fence(bypass), f, block);
  }

  lemma {:induction false} HeaviestExists(rules: seq<FenceRule>, f: Flow, r: FenceRule)
    requires r in rules && Matches(r, f)
    ensures exists best :: Decides(rules, f, best)
  {
    var n := |rules| - 1;
    var front, last := rules[..n], rules[n];
    assert rules == front + [last];
    if o :| o in front && Matches(o, f) {
      HeaviestExists(front, f, o);
      var best :| Decides(front, f, best);
      assert Decides(rules, f, if Matches(last, f) && last.weight > best.weight then last else best);
    } else {
      assert Decides(rules, f, last);
    }
  }

  predicate MayConnect(bypass: seq<Prefix>, f: Flow) {
    f.own || f.iface == Tun || CoveredBy(LocalDst(f.v6), f.v6, f.dst) || CoveredBy(bypass, f.v6, f.dst)
  }

  lemma DecidedVerdict(bypass: seq<Prefix>, f: Flow, r: FenceRule)
    requires Decides(Fence(bypass), f, r)
    ensures r.permit <==> MayConnect(bypass, f)
  {
    OfFamilyHolds(bypass, f.v6);
    LayerFamily(false, OfFamily(bypass, false));
    LayerFamily(true, OfFamily(bypass, true));
    LayersApart(Layer(false, OfFamily(bypass, false)), Layer(true, OfFamily(bypass, true)), f, r);
    LayerVerdict(f.v6, OfFamily(bypass, f.v6), f, r);
    assert CoveredBy(OfFamily(bypass, f.v6), f.v6, f.dst) <==> CoveredBy(bypass, f.v6, f.dst);
  }

  /**
   Every connection is decided, and permitted exactly when it is awl's own, in the tunnel, local, or
   to a configured bypass.
   */
  lemma FenceVerdict(bypass: seq<Prefix>, f: Flow)
    ensures exists r :: Decides(Fence(bypass), f, r)
    ensures forall r :: Decides(Fence(bypass), f, r) ==> (r.permit <==> MayConnect(bypass, f))
  {
    SomeRuleDecides(bypass, f);
    forall r | Decides(Fence(bypass), f, r) ensures r.permit <==> MayConnect(bypass, f) {
      DecidedVerdict(bypass, f, r);
    }
  }

  lemma LayerFamily(v6: bool, bypass: seq<Prefix>)
    ensures forall o :: o in Layer(v6, bypass) ==> o.v6 == v6
  {
  }

  /** Rules of the other family never match. */
  lemma LayersApart(four: seq<FenceRule>, six: seq<FenceRule>, f: Flow, r: FenceRule)
    requires (forall o :: o in four ==> !o.v6) && (forall o :: o in six ==> o.v6) && Decides(four + six, f, r)
    ensures Decides(if f.v6 then six else four, f, r)
  {
  }

  /**
   Routes and fence agree: the interface the routes give a connection exists, and over it the fence
   permits the connection, whoever makes it.
   */
  lemma RoutedIsPermitted(table: set<Row>, host: set<Row>, captures: set<Row>, bypassRoutes: set<Row>, prefixes: seq<Prefix>,
                          v6: bool, own: bool, dst: nat)
    requires ClientTable(table, host, captures, bypassRoutes, v6) && dst < Pow2(Width(v6))
    requires forall b :: b in bypassRoutes ==> b.prefix in prefixes
    ensures exists row :: Selected(table, v6, dst, row)
    ensures forall row :: Selected(table, v6, dst, row) ==> Passes(prefixes, Flow(v6, own, row.iface, dst))
  {
    SplitTunnel(table, host, captures, bypassRoutes, v6, dst);
    forall row | Selected(table, v6, dst, row) ensures Passes(prefixes, Flow(v6, own, row.iface, dst)) {
      FenceVerdict(prefixes, Flow(v6, own, row.iface, dst));
      if row.iface.Uplink? {
        assert row.prefix in prefixes && Covers(row.prefix, v6, dst);
      }
    }
  }

  /** The fence lets a connection through. */
  ghost predicate Passes(prefixes: seq<Prefix>, f: Flow) {
    (exists r :: Decides(Fence(prefixes), f, r)) && forall r :: Decides(Fence(prefixes), f, r) ==> r.permit
  }

  /** Nobody else gets past the tunnel over a physical interface, except to local or bypass destinations. */
  lemma OthersAreBlocked(prefixes: seq<Prefix>, f: Flow)
    requires !f.own && f.iface.Uplink?
    ensures Passes(prefixes, f) <==> CoveredBy(LocalDst(f.v6), f.v6, f.dst) || CoveredBy(prefixes, f.v6, f.dst)
  {
    FenceVerdict(prefixes, f);
  }
}
