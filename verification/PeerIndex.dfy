/**
 The tunnel's index from addresses to peers as values (RefreshPeersList of service/tunnel.go): how a
 refresh, in whatever order it visits the peers, changes it, and who is reachable afterwards.
 */
module PeerIndex {
  import opened Wrappers
  import opened Bytes

  type PeerId = string

  /** An address in its canonical form. */
  type Key = seq<byte>

  /** One of the two addresses of a peer. */
  datatype Slot = Slot(id: PeerId, v6: bool)

  datatype Addrs = Addrs(ip4: Option<Key>, ip6: Option<Key>)

  /** Which addresses each peer has, and under which addresses a peer is found. */
  datatype Index = Index(addrs: map<PeerId, Addrs>, owner: map<Key, Slot>)

  /** A peer of the configuration; `ip4` is missing when the stored address is invalid. */
  datatype Known = Known(ip4: Option<Key>, ip6: Option<Key>, allowExit: bool)

  function Own(f: Index, s: Slot): Option<Key> {
    if s.id !in f.addrs then None else if s.v6 then f.addrs[s.id].ip6 else f.addrs[s.id].ip4
  }

  function Want(known: map<PeerId, Known>, s: Slot): Option<Key> {
    if s.id !in known then None else if s.v6 then known[s.id].ip6 else known[s.id].ip4
  }

  /** An entry leads to a peer that has that address. */
  ghost predicate Sound(f: Index) {
    forall k :: k in f.owner ==> Own(f, f.owner[k]) == Some(k)
  }

  /** The peer is found under the address of this slot. */
  predicate Reached(f: Index, s: Slot) {
    Own(f, s).Some? ==> Own(f, s).value in f.owner && f.owner[Own(f, s).value] == s
  }

  ghost predicate Complete(f: Index) {
    forall s :: Reached(f, s)
  }

  // ---- The steps of a refresh ------------------------------------------------------------------------

  function Hold(f: Index, s: Slot, k: Option<Key>): map<PeerId, Addrs> {
    var a := if s.id in f.addrs then f.addrs[s.id] else Addrs(None, None);
    f.addrs[s.id := if s.v6 then a.(ip6 := k) else a.(ip4 := k)]
  }

  function Without(owner: map<Key, Slot>, k: Option<Key>): map<Key, Slot> {
    if k.Some? then owner - {k.value} else owner
  }

  function With(owner: map<Key, Slot>, k: Option<Key>, s: Slot): map<Key, Slot> {
    if k.Some? then owner[k.value := s] else owner
  }

  /** Giving a slot another address: the entry of the old one goes, whoever it leads to. */
  function Move(f: Index, s: Slot, k: Option<Key>): Index {
    var was := Own(f, s);
    if was == k then f else Index(Hold(f, s, k), With(Without(f.owner, was), k, s))
  }

  /** All slots visited, in that order. */
  function Process(f: Index, known: map<PeerId, Known>, visits: seq<Slot>): Index {
    if visits == [] then f
    else
      var s := visits[|visits| - 1];
      Move(Process(f, known, visits[..|visits| - 1]), s, Want(known, s))
  }

  function Drop(f: Index, id: PeerId): Index {
    Index(f.addrs - {id}, Without(Without(f.owner, Own(f, Slot(id, false))), Own(f, Slot(id, true))))
  }

  function DropAll(f: Index, gone: seq<PeerId>): Index {
    if gone == [] then f else Drop(DropAll(f, gone[..|gone| - 1]), gone[|gone| - 1])
  }

  lemma DropNext(f: Index, gone: seq<PeerId>, id: PeerId)
    ensures DropAll(f, gone + [id]) == Drop(DropAll(f, gone), id)
  {
  }

  predicate NoDuplicates<T(==)>(s: seq<T>) {
    forall i, j :: 0 <= i < j < |s| ==> s[i] != s[j]
  }

  lemma NoDuplicatesSnoc<T>(s: seq<T>, x: T)
    requires NoDuplicates(s) && x !in s
    ensures NoDuplicates(s + [x])
  {
  }

  /** A peer with a valid address: the ones a refresh adds or updates. */
  predicate Addressed(known: map<PeerId, Known>, id: PeerId) { id in known && known[id].ip4.Some? }

  /** Both slots of every validly addressed peer once, IPv4 before IPv6. */
  ghost predicate Visits(visits: seq<Slot>, known: map<PeerId, Known>) {
    && NoDuplicates(visits)
    && (forall s :: s in visits <==> Addressed(known, s.id))
    && forall i, j :: 0 <= i < j < |visits| && visits[i].id == visits[j].id ==> !visits[i].v6
  }

  /** The peers no longer known, each once. */
  ghost predicate Gone(gone: seq<PeerId>, f: Index, known: map<PeerId, Known>) {
    NoDuplicates(gone) && forall id :: id in gone <==> id in f.addrs && id !in known
  }

  function Refreshed(f: Index, known: map<PeerId, Known>, visits: seq<Slot>, gone: seq<PeerId>): Index {
    DropAll(Process(f, known, visits), gone)
  }

  // ---- Soundness -------------------------------------------------------------------------------------

  lemma MoveSound(f: Index, s: Slot, k: Option<Key>)
    requires Sound(f)
    ensures Sound(Move(f, s, k))
  {
  }

  /** A peer that was not there gets both its addresses. */
  lemma MoveNew(f: Index, id: PeerId, ip4: Option<Key>, ip6: Option<Key>)
    requires id !in f.addrs && ip4.Some?
    ensures Move(Move(f, Slot(id, false), ip4), Slot(id, true), ip6)
            == Index(f.addrs[id := Addrs(ip4, ip6)], With(With(f.owner, ip4, Slot(id, false)), ip6, Slot(id, true)))
  {
  }

  lemma MoveOwns(f: Index, s: Slot, k: Option<Key>)
    ensures forall t :: Own(Move(f, s, k), t) == if t == s then k else Own(f, t)
  {
  }

  lemma DropSound(f: Index, id: PeerId)
    requires Sound(f)
    ensures Sound(Drop(f, id))
  {
  }

  /** With the entries of its addresses gone, nothing leads to the peer any more. */
  lemma DropOwner(f: Index, id: PeerId)
    requires Sound(f)
    ensures forall k :: k in Drop(f, id).owner ==> Drop(f, id).owner[k].id != id
  {
  }

  lemma DropOwns(f: Index, id: PeerId)
    ensures forall t :: Own(Drop(f, id), t) == if t.id == id then None else Own(f, t)
  {
  }

  /** After the visits every visited slot has the wanted address, every other one its old address. */
  lemma {:induction false} ProcessOwns(f: Index, known: map<PeerId, Known>, visits: seq<Slot>)
    requires Sound(f)
    ensures Sound(Process(f, known, visits))
    ensures forall t :: Own(Process(f, known, visits), t) == if t in visits then Want(known, t) else Own(f, t)
  {
    if visits != [] {
      var n := |visits| - 1;
      ProcessOwns(f, known, visits[..n]);
      MoveSound(Process(f, known, visits[..n]), visits[n], Want(known, visits[n]));
      MoveOwns(Process(f, known, visits[..n]), visits[n], Want(known, visits[n]));
      assert visits == visits[..n] + [visits[n]];
    }
  }

  lemma {:induction false} DropAllOwns(f: Index, gone: seq<PeerId>)
    requires Sound(f)
    ensures Sound(DropAll(f, gone))
    ensures forall t :: Own(DropAll(f, gone), t) == if t.id in gone then None else Own(f, t)
  {
    if gone != [] {
      var n := |gone| - 1;
      DropAllOwns(f, gone[..n]);
      DropSound(DropAll(f, gone[..n]), gone[n]);
      DropOwns(DropAll(f, gone[..n]), gone[n]);
      assert gone == gone[..n] + [gone[n]];
    }
  }

  lemma StaysSound(f: Index, known: map<PeerId, Known>, visits: seq<Slot>, gone: seq<PeerId>)
    requires Sound(f)
    ensures Sound(Process(f, known, visits)) && Sound(DropAll(f, gone)) && Sound(Refreshed(f, known, visits, gone))
  {
    ProcessOwns(f, known, visits);
    DropAllOwns(f, gone);
    DropAllOwns(Process(f, known, visits), gone);
  }

  /** The address a slot has after a refresh, however the refresh went. */
  function Final(f: Index, known: map<PeerId, Known>, s: Slot): Option<Key> {
    if s.id !in known then None else if Addressed(known, s.id) then Want(known, s) else Own(f, s)
  }

  /** A refresh keeps the index sound and gives every peer the address the configuration says. */
  lemma RefreshSound(f: Index, known: map<PeerId, Known>, visits: seq<Slot>, gone: seq<PeerId>)
    requires Sound(f) && Visits(visits, known) && Gone(gone, f, known)
    ensures Sound(Refreshed(f, known, visits, gone))
    ensures forall s :: Own(Refreshed(f, known, visits, gone), s) == Final(f, known, s)
  {
    ProcessOwns(f, known, visits);
    DropAllOwns(Process(f, known, visits), gone);
  }

  // ---- Completeness ----------------------------------------------------------------------------------

  /** No two slots are to have the same address. */
  ghost predicate Distinct(f: Index, known: map<PeerId, Known>) {
    forall s, t :: s != t && Final(f, known, s).Some? ==> Final(f, known, s) != Final(f, known, t)
  }

  predicate Leads(f: Index, k: Key, s: Slot) { k in f.owner && f.owner[k] == s }

  lemma MoveLeads(f: Index, s: Slot, k: Option<Key>, key: Key, t: Slot)
    requires s != t && k != Some(key)
    ensures Leads(Move(f, s, k), key, t) <==> Leads(f, key, t) && Own(f, s) != Some(key)
  {
  }

  /** A slot whose address stays keeps its entry, if it has one, exactly when nobody else gives that address up. */
  lemma {:induction false} Stays(f: Index, known: map<PeerId, Known>, visits: seq<Slot>, t: Slot, key: Key)
    requires Sound(f) && NoDuplicates(visits) && Own(f, t) == Some(key) && (t in visits ==> Want(known, t) == Some(key))
    requires forall s :: s in visits && s != t ==> Want(known, s) != Some(key)
    ensures Leads(Process(f, known, visits), key, t)
            <==> Leads(f, key, t) && forall s :: s in visits && s != t ==> Own(f, s) != Some(key)
  {
    if visits != [] {
      var n := |visits| - 1;
      var s, before := visits[n], visits[..n];
      assert visits == before + [s] && s !in before;
      Stays(f, known, before, t, key);
      ProcessOwns(f, known, before);
      if s != t {
        MoveLeads(Process(f, known, before), s, Want(known, s), key, t);
      }
    }
  }

  /** The old holder of `key` is visited after position `i`. */
  predicate HolderAfter(f: Index, visits: seq<Slot>, i: nat, key: Key) {
    exists j :: i < j < |visits| && Own(f, visits[j]) == Some(key)
  }

  /** A slot that is given another address is found there exactly until the old holder of that address is visited. */
  lemma {:induction false} Tracked(f: Index, known: map<PeerId, Known>, visits: seq<Slot>, i: nat, key: Key)
    requires Sound(f) && NoDuplicates(visits) && i < |visits|
    requires Want(known, visits[i]) == Some(key) && Own(f, visits[i]) != Some(key)
    requires forall j :: 0 <= j < |visits| && j != i ==> Want(known, visits[j]) != Some(key)
    ensures Leads(Process(f, known, visits), key, visits[i]) <==> !HolderAfter(f, visits, i, key)
    decreases |visits|
  {
    var n := |visits| - 1;
    var s, before := visits[n], visits[..n];
    ProcessOwns(f, known, before);
    if i < n {
      Tracked(f, known, before, i, key);
      MoveLeads(Process(f, known, before), s, Want(known, s), key, visits[i]);
      HolderAfterSnoc(f, visits, i, key);
    }
  }

  lemma HolderAfterSnoc(f: Index, visits: seq<Slot>, i: nat, key: Key)
    requires i < |visits| - 1
    ensures HolderAfter(f, visits, i, key)
            <==> HolderAfter(f, visits[..|visits| - 1], i, key) || Own(f, visits[|visits| - 1]) == Some(key)
  {
  }

  lemma DropLeads(f: Index, id: PeerId, key: Key, t: Slot)
    ensures Leads(Drop(f, id), key, t) <==>
      Leads(f, key, t) && Own(f, Slot(id, false)) != Some(key) && Own(f, Slot(id, true)) != Some(key)
  {
  }

  lemma {:induction false} DropAllLeads(f: Index, gone: seq<PeerId>, key: Key, t: Slot)
    requires Sound(f) && NoDuplicates(gone)
    ensures Leads(DropAll(f, gone), key, t) <==>
      Leads(f, key, t) && forall s: Slot :: s.id in gone ==> Own(f, s) != Some(key)
  {
    if gone != [] {
      var n := |gone| - 1;
      var before, id := gone[..n], gone[n];
      DropAllLeads(f, before, key, t);
      DropAllOwns(f, before);
      DropLeads(DropAll(f, before), id, key, t);
      assert gone == before + [id];
      assert forall s: Slot :: s.id == id ==> s == Slot(id, false) || s == Slot(id, true);
    }
  }

  /**
   A slot ends up without an entry.  If it keeps its address: it had no entry, or somebody else with
   that address gives it up.  If it takes an address: the old holder gives it up only afterwards.
   */
  ghost predicate Loses(f: Index, known: map<PeerId, Known>, visits: seq<Slot>, s: Slot) {
    var key := Final(f, known, s);
    && key.Some?
    && if Own(f, s) == key then !Leads(f, key.value, s) || exists h :: h != s && Own(f, h) == key
       else exists h :: h != s && Own(f, h) == key && LeavesLate(known, visits, s, h)
  }

  /** The old holder is gone, and so dropped at the end, or visited after the taker. */
  predicate LeavesLate(known: map<PeerId, Known>, visits: seq<Slot>, s: Slot, h: Slot) {
    h.id !in known || exists i, j :: 0 <= i < j < |visits| && visits[i] == s && visits[j] == h
  }

  /** Who is reachable after a refresh with pairwise distinct addresses, whatever the index was before. */
  lemma RefreshReaches(f: Index, known: map<PeerId, Known>, visits: seq<Slot>, gone: seq<PeerId>, s: Slot)
    requires Sound(f) && Distinct(f, known) && Visits(visits, known) && Gone(gone, f, known)
    ensures Reached(Refreshed(f, known, visits, gone), s) <==> !Loses(f, known, visits, s)
  {
    RefreshSound(f, known, visits, gone);
    var final := Final(f, known, s);
    if final.Some? {
      var key := final.value;
      ProcessOwns(f, known, visits);
      DropAllLeads(Process(f, known, visits), gone, key, s);
      GoneHolders(f, known, visits, gone, key);
      assert forall t :: t in visits && t != s ==> Final(f, known, t) == Want(known, t) != Some(key);
      if Own(f, s) == final {
        Stays(f, known, visits, s, key);
        OthersLeave(f, known, visits, s, key);
      } else {
        var i :| 0 <= i < |visits| && visits[i] == s;
        Tracked(f, known, visits, i, key);
        LateHolders(f, visits, i, key);
      }
    }
  }

  /** With distinct addresses whoever else had the address of `s` is visited or gone. */
  lemma OthersLeave(f: Index, known: map<PeerId, Known>, visits: seq<Slot>, s: Slot, key: Key)
    requires Distinct(f, known) && Visits(visits, known) && Final(f, known, s) == Some(key)
    ensures forall h :: h != s && Own(f, h) == Some(key) ==> h in visits || h.id !in known
  {
    forall h | h != s && Own(f, h) == Some(key) ensures h in visits || h.id !in known {
      assert Final(f, known, s) != Final(f, known, h);
    }
  }

  /** A peer that is going has, when it goes, the addresses it had from the start. */
  lemma GoneHolders(f: Index, known: map<PeerId, Known>, visits: seq<Slot>, gone: seq<PeerId>, key: Key)
    requires Sound(f) && Visits(visits, known) && Gone(gone, f, known)
    ensures (forall h: Slot :: h.id in gone ==> Own(Process(f, known, visits), h) != Some(key))
            <==> (forall h: Slot :: h.id !in known ==> Own(f, h) != Some(key))
  {
    ProcessOwns(f, known, visits);
    assert forall h: Slot :: h.id in gone ==> h !in visits;
  }

  lemma LateHolders(f: Index, visits: seq<Slot>, i: nat, key: Key)
    requires NoDuplicates(visits) && i < |visits|
    ensures HolderAfter(f, visits, i, key)
            <==> exists h :: h != visits[i] && Own(f, h) == Some(key)
                             && exists k, j :: 0 <= k < j < |visits| && visits[k] == visits[i] && visits[j] == h
  {
  }

  /**
   A peer that has lost its entry stays unreachable, through any refresh in any order, as long as its
   address does not change.
   */
  lemma LostStaysLost(f: Index, known: map<PeerId, Known>, visits: seq<Slot>, gone: seq<PeerId>, s: Slot)
    requires Sound(f) && Visits(visits, known) && Gone(gone, f, known)
    requires !Reached(f, s) && Final(f, known, s) == Own(f, s)
    ensures !Reached(Refreshed(f, known, visits, gone), s)
  {
    var key := Own(f, s).value;
    RefreshSound(f, known, visits, gone);
    ProcessOwns(f, known, visits);
    NoNewEntry(f, known, visits, s, key);
    DropAllLeads(Process(f, known, visits), gone, key, s);
  }

  lemma {:induction false} NoNewEntry(f: Index, known: map<PeerId, Known>, visits: seq<Slot>, t: Slot, key: Key)
    requires Sound(f) && Own(f, t) == Some(key) && !Leads(f, key, t) && (t in visits ==> Want(known, t) == Some(key))
    ensures !Leads(Process(f, known, visits), key, t)
  {
    if visits != [] {
      var n := |visits| - 1;
      assert visits == visits[..n] + [visits[n]];
      NoNewEntry(f, known, visits[..n], t, key);
      ProcessOwns(f, known, visits[..n]);
    }
  }

  // ---- Over every order the map may yield ------------------------------------------------------------

  /** The visits of a refresh that takes the peers in this order. */
  function VisitsOf(order: seq<PeerId>): (visits: seq<Slot>)
    ensures |visits| == 2 * |order|
  {
    seq(2 * |order|, i requires 0 <= i < 2 * |order| => Slot(order[i / 2], i % 2 == 1))
  }

  lemma ProcessNext(f: Index, known: map<PeerId, Known>, order: seq<PeerId>, id: PeerId)
    ensures Process(f, known, VisitsOf(order + [id]))
            == Move(Move(Process(f, known, VisitsOf(order)), Slot(id, false), Want(known, Slot(id, false))),
                    Slot(id, true), Want(known, Slot(id, true)))
  {
    var before, visits := VisitsOf(order), VisitsOf(order + [id]);
    var half := visits[..|visits| - 1];
    assert visits == half + [Slot(id, true)] && half == before + [Slot(id, false)];
    assert half[..|half| - 1] == before;
  }

  ghost predicate Enumerates(order: seq<PeerId>, known: map<PeerId, Known>) {
    NoDuplicates(order) && forall id :: id in order <==> Addressed(known, id)
  }

  lemma VisitsAre(order: seq<PeerId>, known: map<PeerId, Known>)
    requires Enumerates(order, known)
    ensures Visits(VisitsOf(order), known)
  {
    var visits := VisitsOf(order);
    forall s: Slot | Addressed(known, s.id) ensures s in visits {
      var i :| 0 <= i < |order| && order[i] == s.id;
      assert visits[2 * i + if s.v6 then 1 else 0] == s;
    }
    forall i, j | 0 <= i < j < |visits| && visits[i].id == visits[j].id ensures !visits[i].v6 && visits[j].v6 {
      assert order[i / 2] == order[j / 2];
    }
  }

  /** An address passes to a slot from another one, other than from a peer's IPv4 to its own IPv6 slot. */
  predicate PassesOn(f: Index, known: map<PeerId, Known>, s: Slot, h: Slot) {
    && h != s && Own(f, h).Some? && Own(f, h) == Final(f, known, s)
    && !(h.id == s.id && s.v6 && Own(f, s) != Final(f, known, s))
  }

  ghost predicate NoHandover(f: Index, known: map<PeerId, Known>) {
    forall s, h :: !PassesOn(f, known, s, h)
  }

  /** Whoever keeps an address is found under it already. */
  ghost predicate NoneLost(f: Index, known: map<PeerId, Known>) {
    forall s :: Own(f, s) == Final(f, known, s) ==> Reached(f, s)
  }

  lemma {:induction false} ProcessPeers(f: Index, known: map<PeerId, Known>, visits: seq<Slot>)
    ensures forall id :: id in Process(f, known, visits).addrs <==>
      id in f.addrs || exists s :: s in visits && s.id == id && Want(known, s).Some?
  {
    if visits != [] {
      var front, last := visits[..|visits| - 1], visits[|visits| - 1];
      ProcessPeers(f, known, front);
      assert visits == front + [last];
    }
  }

  lemma {:induction false} DropAllPeers(f: Index, gone: seq<PeerId>)
    ensures forall id :: id in DropAll(f, gone).addrs <==> id in f.addrs && id !in gone
  {
    if gone != [] {
      var front, last := gone[..|gone| - 1], gone[|gone| - 1];
      DropAllPeers(f, front);
      assert gone == front + [last];
    }
  }

  /** Who has a channel after a refresh: the known peers with a valid address, and known ones that had one. */
  lemma RefreshedPeers(f: Index, known: map<PeerId, Known>, order: seq<PeerId>, gone: seq<PeerId>, id: PeerId)
    requires Enumerates(order, known) && Gone(gone, f, known)
    ensures id in Refreshed(f, known, VisitsOf(order), gone).addrs <==>
      id in known && (Addressed(known, id) || id in f.addrs)
  {
    var visits := VisitsOf(order);
    VisitsAre(order, known);
    ProcessPeers(f, known, visits);
    DropAllPeers(Process(f, known, visits), gone);
    if Addressed(known, id) {
      assert Slot(id, false) in visits && Want(known, Slot(id, false)).Some?;
    }
  }

  /** Every peer is reachable after the refresh, in whichever order the peers are taken. */
  ghost predicate AlwaysComplete(f: Index, known: map<PeerId, Known>, gone: seq<PeerId>) {
    forall order :: Enumerates(order, known) ==> Complete(Refreshed(f, known, VisitsOf(order), gone))
  }

  /** A new peer with the address of one that is gone: in every order the refresh loses it. */
  lemma ReplacementLost() returns (f: Index, known: map<PeerId, Known>, gone: seq<PeerId>, s: Slot)
    ensures Sound(f) && Complete(f) && Distinct(f, known) && Gone(gone, f, known) && Addressed(known, s.id)
    ensures forall order :: Enumerates(order, known) ==> !Reached(Refreshed(f, known, VisitsOf(order), gone), s)
  {
    var key: Key := [10, 66, 0, 2];
    var h := Slot("a", false);
    s := Slot("b", false);
    f := Index(map["a" := Addrs(Some(key), None)], map[key := h]);
    known, gone := map["b" := Known(Some(key), None, false)], ["a"];
    forall order | Enumerates(order, known) ensures !Reached(Refreshed(f, known, VisitsOf(order), gone), s) {
      VisitsAre(order, known);
      assert Own(f, h) == Final(f, known, s);
      RefreshReaches(f, known, VisitsOf(order), gone, s);
    }
  }

  /**
   With distinct addresses a refresh makes every peer reachable in every order exactly when no
   address is handed over and none of the peers that keep their address was lost before.
   */
  lemma RefreshCompleteIff(f: Index, known: map<PeerId, Known>, gone: seq<PeerId>)
    requires Sound(f) && Distinct(f, known) && Gone(gone, f, known)
    ensures AlwaysComplete(f, known, gone) <==> NoHandover(f, known) && NoneLost(f, known)
  {
    if NoHandover(f, known) && NoneLost(f, known) {
      forall order, s | Enumerates(order, known) ensures Reached(Refreshed(f, known, VisitsOf(order), gone), s) {
        NothingLost(f, known, order, s);
        VisitsAre(order, known);
        RefreshReaches(f, known, VisitsOf(order), gone, s);
      }
    } else {
      var order, s := BadOrder(f, known);
      VisitsAre(order, known);
      RefreshReaches(f, known, VisitsOf(order), gone, s);
      assert !Complete(Refreshed(f, known, VisitsOf(order), gone));
    }
  }

  lemma NothingLost(f: Index, known: map<PeerId, Known>, order: seq<PeerId>, s: Slot)
    requires Enumerates(order, known) && NoHandover(f, known) && NoneLost(f, known)
    ensures !Loses(f, known, VisitsOf(order), s)
  {
    VisitsAre(order, known);
    assert Own(f, s) == Final(f, known, s) ==> Reached(f, s);
    forall h | h != s && Own(f, h).Some? && Own(f, h) == Final(f, known, s)
      ensures s.v6 && h == Slot(s.id, false) && Own(f, s) != Final(f, known, s)
    {
      assert !PassesOn(f, known, s, h);
    }
    if s.v6 && s.id in known {
      OwnFirst(order, known, s);
    }
  }

  /** A peer's IPv4 slot is never visited after its IPv6 slot. */
  lemma OwnFirst(order: seq<PeerId>, known: map<PeerId, Known>, s: Slot)
    requires Enumerates(order, known) && s.v6 && s.id in known
    ensures !LeavesLate(known, VisitsOf(order), s, Slot(s.id, false))
  {
    VisitsAre(order, known);
  }

  /** If an address passes on, or a peer is lost already, some order leaves a peer unreachable. */
  lemma BadOrder(f: Index, known: map<PeerId, Known>) returns (order: seq<PeerId>, s: Slot)
    requires Distinct(f, known) && !(NoHandover(f, known) && NoneLost(f, known))
    ensures Enumerates(order, known) && Loses(f, known, VisitsOf(order), s)
  {
    var ids := set id | id in known && Addressed(known, id);
    if t :| Own(f, t) == Final(f, known, t) && !Reached(f, t) {
      s := t;
      order := AnyOrder(ids);
    } else {
      var t, h :| PassesOn(f, known, t, h);
      s := t;
      if Own(f, s) == Final(f, known, s) {
        order := AnyOrder(ids);
      } else {
        order := StartingWith(ids, s.id);
        TakerFirst(f, known, order, s, h);
      }
    }
  }

  lemma TakerFirst(f: Index, known: map<PeerId, Known>, order: seq<PeerId>, s: Slot, h: Slot)
    requires Distinct(f, known) && PassesOn(f, known, s, h) && Own(f, s) != Final(f, known, s)
    requires Enumerates(order, known) && order != [] && order[0] == s.id
    ensures LeavesLate(known, VisitsOf(order), s, h)
  {
    var visits := VisitsOf(order);
    if h.id in known {
      assert Final(f, known, h) != Final(f, known, s);
      assert Addressed(known, h.id) && h.id in order;
      var k :| 0 <= k < |order| && order[k] == h.id;
      var i, j := if s.v6 then 1 else 0, 2 * k + if h.v6 then 1 else 0;
      assert visits[i] == s && visits[j] == h && i < j;
    }
  }

  lemma AnyOrder(ids: set<PeerId>) returns (order: seq<PeerId>)
    ensures NoDuplicates(order) && forall id :: id in order <==> id in ids
  {
    if id :| id in ids {
      order := StartingWith(ids, id);
    } else {
      order := [];
    }
  }

  lemma {:induction false} StartingWith(ids: set<PeerId>, first: PeerId) returns (order: seq<PeerId>)
    requires first in ids
    ensures NoDuplicates(order) && (forall id :: id in order <==> id in ids) && order != [] && order[0] == first
    decreases |ids|
  {
    var rest := ids - {first};
    if rest == {} {
      order := [first];
    } else {
      var next :| next in rest;
      var tail := StartingWith(rest, next);
      order := [first] + tail;
    }
  }

  // ---- Runs of refreshes -----------------------------------------------------------------------------

  /** What one refresh sees, and the orders in which it goes. */
  datatype Round = Round(known: map<PeerId, Known>, order: seq<PeerId>, gone: seq<PeerId>)

  /** One refresh takes the index from `f` to `g`. */
  ghost predicate Takes(f: Index, r: Round, g: Index) {
    Enumerates(r.order, r.known) && Gone(r.gone, f, r.known) && g == Refreshed(f, r.known, VisitsOf(r.order), r.gone)
  }

  /** A refresh that hands nothing over. */
  ghost predicate Clean(f: Index, known: map<PeerId, Known>) {
    Distinct(f, known) && NoHandover(f, known)
  }

  /** From an index without gaps such a refresh leads to one without gaps. */
  lemma CleanKeepsComplete(f: Index, r: Round, g: Index)
    requires Sound(f) && Complete(f) && Takes(f, r, g) && Clean(f, r.known)
    ensures Sound(g) && Complete(g)
  {
    assert NoneLost(f, r.known);
    RefreshCompleteIff(f, r.known, r.gone);
    StaysSound(f, r.known, VisitsOf(r.order), r.gone);
  }

  ghost predicate IsRun(fs: seq<Index>, rs: seq<Round>) {
    && |fs| == |rs| + 1 && fs[0] == Index(map[], map[])
    && forall i {:trigger rs[i]} :: 0 <= i < |rs| ==> Takes(fs[i], rs[i], fs[i + 1])
  }

  /** In every run every entry leads to a peer that has that address. */
  lemma {:induction false} RunKeepsSound(fs: seq<Index>, rs: seq<Round>, i: nat)
    requires IsRun(fs, rs) && i < |fs|
    ensures Sound(fs[i])
  {
    if i > 0 {
      RunKeepsSound(fs, rs, i - 1);
      assert Takes(fs[i - 1], rs[i - 1], fs[i]);
      StaysSound(fs[i - 1], rs[i - 1].known, VisitsOf(rs[i - 1].order), rs[i - 1].gone);
    }
  }

  /** In a run whose refreshes hand nothing over, every peer is reachable after every refresh. */
  lemma {:induction false} RunKeepsComplete(fs: seq<Index>, rs: seq<Round>, i: nat)
    requires IsRun(fs, rs) && i < |fs| && forall k :: 0 <= k < i ==> Clean(fs[k], rs[k].known)
    ensures Complete(fs[i])
  {
    if i > 0 {
      RunKeepsComplete(fs, rs, i - 1);
      RunKeepsSound(fs, rs, i - 1);
      assert Takes(fs[i - 1], rs[i - 1], fs[i]);
      CleanKeepsComplete(fs[i - 1], rs[i - 1], fs[i]);
    }
  }

  /** A lost peer stays lost over any number of refreshes that leave its address alone. */
  lemma {:induction false} RunKeepsLost(fs: seq<Index>, rs: seq<Round>, i: nat, j: nat, s: Slot)
    requires IsRun(fs, rs) && i <= j < |fs| && !Reached(fs[i], s)
    requires forall k :: i <= k <= j ==> Own(fs[k], s) == Own(fs[i], s)
    ensures !Reached(fs[j], s)
    decreases j
  {
    if i < j {
      RunKeepsLost(fs, rs, i, j - 1, s);
      RunKeepsSound(fs, rs, j - 1);
      assert Takes(fs[j - 1], rs[j - 1], fs[j]);
      var r := rs[j - 1];
      VisitsAre(r.order, r.known);
      RefreshSound(fs[j - 1], r.known, VisitsOf(r.order), r.gone);
      LostStaysLost(fs[j - 1], r.known, VisitsOf(r.order), r.gone, s);
    }
  }
}
