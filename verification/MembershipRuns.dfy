/**
 Every run of membership operations: what a node's configuration satisfies after any sequence of
 invites created and revoked, peers added, updated and removed, status merged and restarts.
 */
module MembershipRuns {
  import opened Wrappers
  import opened Addresses
  import opened Membership
  import opened Loading

  datatype Op =
    | Create(id: string, token: string, alias: string, allowExit: bool, maxUses: int, expiresAt: Option<int>)
    | Revoke(id: string)
    | Add(p: Params, now: int, out: Outcome)
    | Remove(id: string)
    | Update(id: string, alias: string, ip: Ip, allowExit: bool)
    | Merge(id: string, name: string)
    | Reload

  ghost predicate Step(c: Conf, op: Op, c': Conf) {
    && ValidSubnet(c.subnet)
    && match op
       case Create(id, token, alias, allowExit, maxUses, expiresAt) =>
         c' == CreateInvite(c, id, token, alias, allowExit, maxUses, expiresAt)
       case Revoke(id) => c' == RevokeInvite(c, id)
       case Add(p, now, out) => AddPeer(c, p, now, c', out)
       case Remove(id) => c' == RemovePeer(c, id)
       case Update(id, alias, ip, allowExit) => c' == UpdatePeer(c, id, alias, ip, allowExit)
       case Merge(id, name) => MergeStatus(c, id, name, c')
       case Reload => Loads(Stored(c), c')
  }

  /** What a restart finds: everything but the reserved address. */
  function Stored(c: Conf): Conf { c.(dns := None) }

  /** There is a proper address for every stored peer without one. */
  ghost predicate EnoughFor(c: Conf)
    requires ValidSubnet(c.subnet)
  {
    forall dns, m: Address :: IsDns(Stored(c), dns) && IsMaxInUse(Stored(c), m) ==>
      |Missing(Stored(c))| <= Capacity(c.(dns := dns), m)
  }

  /** The address that will be reserved is some peer's, spelled otherwise. */
  ghost predicate ReservesTaken(c: Conf)
    requires ValidSubnet(c.subnet)
  {
    exists dns :: IsDns(Stored(c), dns) && DnsTaken(Stored(c), dns)
  }

  lemma ReloadKeepsAddresses(c: Conf, c': Conf)
    requires ValidSubnet(c.subnet) && AddressesGood(c) && Loads(Stored(c), c')
    ensures c'.subnet == c.subnet && (AddressesGood(c') <==> EnoughFor(c) && !ReservesTaken(c))
  {
    var stored := Stored(c);
    assert forall o, a: Address :: Holds(c, o, a) <==> Holds(stored, o, a);
    LoadsServe(stored, c');
    var m := MaxExists(stored, stored.peers.Keys);
    ReservedIs(c, c'.dns);
    EnoughIs(c, c'.dns, m);
  }

  lemma EnoughIs(c: Conf, dns: Option<Address>, m: Address)
    requires ValidSubnet(c.subnet) && IsDns(Stored(c), dns) && IsMaxInUse(Stored(c), m)
    ensures EnoughFor(c) <==> |Missing(Stored(c))| <= Capacity(c.(dns := dns), m)
  {
    forall dns', m': Address | IsDns(Stored(c), dns') && IsMaxInUse(Stored(c), m') ensures dns' == dns && m' == m {
      DnsIsUnique(Stored(c), dns, dns');
      MaxIsUnique(Stored(c), m, m');
    }
  }

  lemma ReservedIs(c: Conf, dns: Option<Address>)
    requires ValidSubnet(c.subnet) && IsDns(Stored(c), dns)
    ensures ReservesTaken(c) <==> DnsTaken(Stored(c), dns)
  {
    if ReservesTaken(c) {
      var dns' :| IsDns(Stored(c), dns') && DnsTaken(Stored(c), dns');
      DnsIsUnique(Stored(c), dns, dns');
    }
  }

  /** What the callers see to: fresh random draws, and real peer ids. */
  predicate Fair(c: Conf, op: Op) {
    match op
    case Create(id, token, _, _, _, _) =>
      id != "" && id !in c.invites && token != "" && forall i :: i in c.invites ==> c.invites[i].token != token
    case Add(p, _, _) => p.id != ""
    case _ => true
  }

  /** `t` lists the configurations between the operations. */
  ghost predicate IsRun(t: seq<Conf>, ops: seq<Op>) {
    |t| == |ops| + 1 && forall i {:trigger ops[i]} :: 0 <= i < |ops| ==> Fair(t[i], ops[i]) && Step(t[i], ops[i], t[i + 1])
  }

  // ---- Aliases ---------------------------------------------------------------------------------------

  lemma StepKeepsAliases(c: Conf, op: Op, c': Conf)
    requires Fair(c, op) && Step(c, op, c') && AliasesDistinct(c)
    ensures AliasesDistinct(c')
  {
    match op
    case Add(p, now, out) => AddKeepsAliases(c, p, now, c', out);
    case Update(id, alias, ip, allowExit) => UpdateKeepsAliases(c, id, alias, ip, allowExit);
    case Merge(id, name) => MergeKeepsMembers(c, id, name, c');
    case Reload => LoadsServe(Stored(c), c');
    case _ =>
  }

  /** Aliases are distinct in every state of every run. */
  lemma {:induction false} RunKeepsAliases(t: seq<Conf>, ops: seq<Op>, i: nat)
    requires IsRun(t, ops) && i < |t| && AliasesDistinct(t[0])
    ensures AliasesDistinct(t[i])
  {
    if i > 0 {
      RunKeepsAliases(t, ops, i - 1);
      StepKeepsAliases(t[i - 1], ops[i - 1], t[i]);
    }
  }

  // ---- Invites ---------------------------------------------------------------------------------------

  /** The operation spends a use without adding a peer. */
  predicate SpendsInVain(c: Conf, op: Op)
    requires ValidSubnet(c.subnet)
  {
    op.Add? && LosesUse(c, op.p, op.now)
  }

  /** One operation keeps invites conserved exactly when it does not spend a use in vain. */
  lemma StepConserves(c: Conf, op: Op, c': Conf)
    requires Fair(c, op) && Step(c, op, c') && AliasesDistinct(c) && Conserved(c)
    ensures Conserved(c') <==> !SpendsInVain(c, op)
  {
    match op
    case Create(id, token, alias, allowExit, maxUses, expiresAt) =>
      CreateConserves(c, id, token, alias, allowExit, maxUses, expiresAt);
    case Revoke(id) => RevokeConserves(c, id);
    case Add(p, now, out) => AddConserves(c, p, now, c', out);
    case _ => SameInvites(c, op, c');
  }

  /** Only creating, revoking and adding touch the invites. */
  lemma SameInvites(c: Conf, op: Op, c': Conf)
    requires Step(c, op, c') && !op.Create? && !op.Revoke? && !op.Add?
    ensures c'.invites == c.invites && c'.log == c.log
  {
    if op.Reload? {
      LoadsServe(Stored(c), c');
    }
  }

  lemma ConservedAt(t: seq<Conf>, ops: seq<Op>, i: nat)
    requires IsRun(t, ops) && i < |ops| && AliasesDistinct(t[0]) && Conserved(t[i])
    ensures Conserved(t[i + 1]) <==> !VainAt(t, ops, i)
  {
    RunKeepsAliases(t, ops, i);
    StepConserves(t[i], ops[i], t[i + 1]);
  }

  ghost predicate VainAt(t: seq<Conf>, ops: seq<Op>, i: nat)
    requires IsRun(t, ops) && i < |ops|
  {
    SpendsInVain(t[i], ops[i])
  }

  /** No operation of the run spends a use in vain. */
  ghost predicate NoneInVain(t: seq<Conf>, ops: seq<Op>)
    requires IsRun(t, ops)
  {
    forall i: nat :: i < |ops| ==> !VainAt(t, ops, i)
  }

  /** Invites are conserved in all states of a run exactly when it spends no use in vain. */
  lemma RunConserves(t: seq<Conf>, ops: seq<Op>)
    requires IsRun(t, ops) && AliasesDistinct(t[0]) && Conserved(t[0])
    ensures (forall i :: 0 <= i < |t| ==> Conserved(t[i])) <==> NoneInVain(t, ops)
  {
    if forall i :: 0 <= i < |t| ==> Conserved(t[i]) {
      forall i: nat | i < |ops| ensures !VainAt(t, ops, i) {
        ConservedAt(t, ops, i);
      }
    }
    if NoneInVain(t, ops) {
      forall i: nat | i < |t| ensures Conserved(t[i]) { SparingConserves(t, ops, i); }
    }
  }

  lemma {:induction false} SparingConserves(t: seq<Conf>, ops: seq<Op>, i: nat)
    requires IsRun(t, ops) && i < |t| && AliasesDistinct(t[0]) && Conserved(t[0]) && NoneInVain(t, ops)
    ensures Conserved(t[i])
  {
    if i > 0 {
      SparingConserves(t, ops, i - 1);
      ConservedAt(t, ops, i - 1);
    }
  }

  /** The callers that redeem invites ask for nothing that can fail after the reservation, so they lose none. */
  lemma SafeCallersConserve(t: seq<Conf>, ops: seq<Op>, i: nat)
    requires IsRun(t, ops) && i < |t| && AliasesDistinct(t[0]) && Conserved(t[0])
    requires forall op :: op in ops && op.Add? ==> RedeemsSafely(op.p)
    ensures Conserved(t[i])
  {
    forall k: nat | k < |ops| ensures !VainAt(t, ops, k) {
      assert ops[k] in ops;
    }
    SparingConserves(t, ops, i);
  }

  // ---- Addresses -------------------------------------------------------------------------------------

  /** There is room for every address an operation generates, and none it takes is another peer's, spelled otherwise. */
  ghost predicate RoomFor(c: Conf, op: Op)
    requires ValidSubnet(c.subnet)
  {
    match op
    case Add(p, _, out) => out == Added ==> AddsProperly(c, p)
    case Update(id, alias, ip, _) => !(AcceptsUpdate(c, id, alias, ip) && Respelled(c, ip, id))
    case Reload => EnoughFor(c) && !ReservesTaken(c)
    case _ => true
  }

  /** One operation keeps every address proper exactly then. */
  lemma StepKeepsAddresses(c: Conf, op: Op, c': Conf)
    requires Step(c, op, c') && AliasesDistinct(c) && AddressesGood(c)
    ensures c'.subnet == c.subnet
    ensures AddressesGood(c') <==> RoomFor(c, op)
  {
    match op
    case Add(p, now, out) =>
      if out == Added {
        AddKeepsAddresses(c, p, now, c');
        var _, _, _, _, _ := Anatomy(c, p, now, c');
      } else {
        OtherOutcomesKeepPeers(c, p, now, c', out);
        SameGood(c, c');
      }
    case Update(id, alias, ip, allowExit) => UpdateKeepsAddresses(c, id, alias, ip, allowExit);
    case Reload => ReloadKeepsAddresses(c, c');
    case _ => FewerKeepAddresses(c, op, c');
  }

  /** The other operations give no peer an address. */
  lemma FewerKeepAddresses(c: Conf, op: Op, c': Conf)
    requires Step(c, op, c') && AliasesDistinct(c) && AddressesGood(c) && (op.Create? || op.Revoke? || op.Remove? || op.Merge?)
    ensures c'.subnet == c.subnet && AddressesGood(c')
  {
    if op.Merge? {
      MergeKeepsMembers(c, op.id, op.name, c');
    }
    assert forall o, a: Address :: Holds(c', o, a) ==> Holds(c, o, a);
  }

  predicate Proper(c: Conf) { ValidSubnet(c.subnet) && AddressesGood(c) }

  ghost predicate RoomAt(t: seq<Conf>, ops: seq<Op>, i: nat)
    requires IsRun(t, ops) && i < |ops|
  {
    RoomFor(t[i], ops[i])
  }

  /** So it was for every operation of the run. */
  ghost predicate AlwaysRoom(t: seq<Conf>, ops: seq<Op>)
    requires IsRun(t, ops)
  {
    forall i: nat :: i < |ops| ==> RoomAt(t, ops, i)
  }

  lemma ProperAt(t: seq<Conf>, ops: seq<Op>, i: nat)
    requires IsRun(t, ops) && i < |ops| && AliasesDistinct(t[0]) && Proper(t[i])
    ensures Proper(t[i + 1]) <==> RoomAt(t, ops, i)
  {
    RunKeepsAliases(t, ops, i);
    StepKeepsAddresses(t[i], ops[i], t[i + 1]);
  }

  /** A run that starts with proper addresses has proper addresses in all its states exactly when it always has room. */
  lemma RunKeepsAddresses(t: seq<Conf>, ops: seq<Op>)
    requires IsRun(t, ops) && AliasesDistinct(t[0]) && Proper(t[0])
    ensures (forall i :: 0 <= i < |t| ==> Proper(t[i])) <==> AlwaysRoom(t, ops)
  {
    if forall i :: 0 <= i < |t| ==> Proper(t[i]) {
      forall i: nat | i < |ops| ensures RoomAt(t, ops, i) { ProperAt(t, ops, i); }
    }
    if AlwaysRoom(t, ops) {
      forall i: nat | i < |t| ensures Proper(t[i]) { RoomSuffices(t, ops, i); }
    }
  }

  lemma {:induction false} RoomSuffices(t: seq<Conf>, ops: seq<Op>, i: nat)
    requires IsRun(t, ops) && i < |t| && AliasesDistinct(t[0]) && Proper(t[0]) && AlwaysRoom(t, ops)
    ensures Proper(t[i])
  {
    if i > 0 {
      RoomSuffices(t, ops, i - 1);
      ProperAt(t, ops, i - 1);
    }
  }

  // ---- Revocation ------------------------------------------------------------------------------------

  /** A revoked invite, and how many peers it has admitted. */
  predicate HoldsRevoked(c: Conf, i: Invite, n: nat) {
    i.id != "" && i.id in c.invites && c.invites[i.id] == i && i.revoked && Insertions(c.log, i.id) == n
  }

  lemma StepKeepsRevoked(c: Conf, op: Op, c': Conf, i: Invite, n: nat)
    requires Fair(c, op) && Step(c, op, c') && AliasesDistinct(c) && HoldsRevoked(c, i, n)
    ensures HoldsRevoked(c', i, n)
  {
    match op
    case Revoke(id) => InsertionsSnoc(c.log, Revoked(id), i.id);
    case Add(p, now, out) => AddKeepsRevoked(c, p, now, c', out, i, n);
    case Create(_, _, _, _, _, _) =>
    case _ => SameInvites(c, op, c');
  }

  lemma AddKeepsRevoked(c: Conf, p: Params, now: int, c': Conf, out: Outcome, i: Invite, n: nat)
    requires ValidSubnet(c.subnet) && AddPeer(c, p, now, c', out) && AliasesDistinct(c) && HoldsRevoked(c, i, n)
    ensures HoldsRevoked(c', i, n)
  {
    if out == Added {
      var _, _, _, _, inviteId := Anatomy(c, p, now, c');
      InsertionsSnoc(c.log, Inserted(inviteId), i.id);
    }
  }

  lemma RevokedAt(t: seq<Conf>, ops: seq<Op>, i: nat, v: Invite, n: nat)
    requires IsRun(t, ops) && i < |ops| && AliasesDistinct(t[0]) && HoldsRevoked(t[i], v, n)
    ensures HoldsRevoked(t[i + 1], v, n)
  {
    RunKeepsAliases(t, ops, i);
    StepKeepsRevoked(t[i], ops[i], t[i + 1], v, n);
  }

  lemma {:induction false} RevokedStays(t: seq<Conf>, ops: seq<Op>, i: nat, j: nat, v: Invite, n: nat)
    requires IsRun(t, ops) && i <= j < |t| && AliasesDistinct(t[0]) && HoldsRevoked(t[i], v, n)
    ensures HoldsRevoked(t[j], v, n)
    decreases j
  {
    if i < j {
      RevokedStays(t, ops, i, j - 1, v, n);
      RevokedAt(t, ops, j - 1, v, n);
    }
  }

  lemma StepKeepsTokens(c: Conf, op: Op, c': Conf)
    requires Fair(c, op) && Step(c, op, c') && TokensDistinct(c)
    ensures TokensDistinct(c')
  {
    match op
    case Create(_, _, _, _, _, _) =>
    case Revoke(_) =>
    case Add(p, now, out) => AddKeepsTokens(c, p, now, c', out);
    case _ => SameInvites(c, op, c');
  }

  lemma AddKeepsTokens(c: Conf, p: Params, now: int, c': Conf, out: Outcome)
    requires ValidSubnet(c.subnet) && AddPeer(c, p, now, c', out) && TokensDistinct(c)
    ensures TokensDistinct(c')
  {
    if p.token != "" && out != AlreadyKnown && out != InviteRejected {
      var id := Redeemed(c, p, now, c', out);
      var spent := Spend(c.(blocked := c.blocked - {p.id}), id);
      CheckedInvites(spent, p, c.invites[id].alias, c.invites[id].allowExit, id, c', out);
      SpendKeepsTokens(c, id, spent);
      SameTokens(spent, c');
    } else if out != AlreadyKnown && out != InviteRejected {
      CheckedInvites(c.(blocked := c.blocked - {p.id}), p, p.alias, p.allowExit, "", c', out);
      SameTokens(c, c');
    } else {
      SameTokens(c, c');
    }
  }

  lemma SameTokens(c: Conf, c': Conf)
    requires TokensDistinct(c) && c'.invites == c.invites
    ensures TokensDistinct(c')
  {
  }

  lemma CheckedInvites(c: Conf, p: Params, alias: string, allowExit: bool, inviteId: string, c': Conf, out: Outcome)
    requires ValidSubnet(c.subnet) && AddChecked(c, p, alias, allowExit, inviteId, c', out)
    ensures c'.invites == c.invites
  {
  }

  lemma SpendKeepsTokens(c: Conf, id: string, c': Conf)
    requires TokensDistinct(c) && id in c.invites && c'.invites == Spend(c, id).invites
    ensures TokensDistinct(c')
  {
  }

  lemma {:induction false} RunKeepsTokens(t: seq<Conf>, ops: seq<Op>, i: nat)
    requires IsRun(t, ops) && i < |t| && TokensDistinct(t[0])
    ensures TokensDistinct(t[i])
  {
    if i > 0 {
      RunKeepsTokens(t, ops, i - 1);
      StepKeepsTokens(t[i - 1], ops[i - 1], t[i]);
    }
  }

  /** A revoked invite never admits another peer, however the run goes on. */
  lemma RevocationIsFinal(t: seq<Conf>, ops: seq<Op>, i: nat, j: nat, id: string)
    requires IsRun(t, ops) && i <= j < |t| && AliasesDistinct(t[0]) && TokensDistinct(t[0])
    requires id in t[i].invites && t[i].invites[id].revoked
    ensures Insertions(t[j].log, id) == Insertions(t[i].log, id)
  {
    RunKeepsTokens(t, ops, i);
    RevokedStays(t, ops, i, j, t[i].invites[id], Insertions(t[i].log, id));
  }
}
