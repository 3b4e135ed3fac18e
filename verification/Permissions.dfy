/**
 What the operations on the configuration store, field by field, and where an exit permission comes
 from over a whole run (service/auth_status.go, config/invites.go, api/peers.go).
 */
module Permissions {
  import opened Wrappers
  import opened Addresses
  import opened Aliases
  import opened Membership
  import opened Loading
  import opened MembershipRuns

  // ---- Invites ---------------------------------------------------------------------------------------

  /** A token opens the invite that has it, if that is not revoked, past its date or used up. */
  lemma RedeemsIff(c: Conf, token: string, now: int, id: string)
    ensures Redeems(c, token, now, id) <==>
      && token != "" && id in c.invites && c.invites[id].token == token && !c.invites[id].revoked
      && (c.invites[id].expiresAt.Some? ==> now <= c.invites[id].expiresAt.value)
      && c.invites[id].usedCount < c.invites[id].maxUses
  {
  }

  /** A new invite has the terms it was created with, for at least one use, and no other changes. */
  lemma CreatedInvite(c: Conf, id: string, token: string, alias: string, allowExit: bool, maxUses: int, expiresAt: Option<int>)
    ensures var c' := CreateInvite(c, id, token, alias, allowExit, maxUses, expiresAt);
            && c' == c.(invites := c'.invites) && c'.invites.Keys == c.invites.Keys + {id}
            && (forall o :: o in c.invites && o != id ==> c'.invites[o] == c.invites[o])
            && var i := c'.invites[id];
               && i.id == id && i.token == token && i.alias == alias && i.allowExit == allowExit && i.expiresAt == expiresAt
               && i.maxUses >= 1 && (maxUses >= 1 ==> i.maxUses == maxUses) && i.usedCount == 0 && !i.revoked
  {
  }

  /** Revoking an invite changes that and nothing else. */
  lemma RevokedInvite(c: Conf, id: string)
    ensures var c' := RevokeInvite(c, id);
            && c'.peers == c.peers && c'.blocked == c.blocked && c'.subnet == c.subnet && c'.dns == c.dns
            && c'.invites.Keys == c.invites.Keys
            && forall o :: o in c.invites ==> c'.invites[o] == if o == id then c.invites[o].(revoked := true) else c.invites[o]
  {
  }

  // ---- AddPeer ---------------------------------------------------------------------------------------

  /** Exactly the invite `id` was spent by one use. */
  predicate SpentOne(c: Conf, c': Conf, id: string) {
    && id in c.invites && c'.invites.Keys == c.invites.Keys
    && c'.invites[id] == c.invites[id].(usedCount := c.invites[id].usedCount + 1)
    && forall o :: o in c.invites && o != id ==> c'.invites[o] == c.invites[o]
  }

  /** Everybody else is as before. */
  predicate OthersKept(c: Conf, c': Conf, id: string) {
    c'.peers.Keys == c.peers.Keys + {id} && forall o :: o in c.peers && o != id ==> c'.peers[o] == c.peers[o]
  }

  /**
   What a successful AddPeer stores: name and confirmation are the caller's; permission, alias and
   invite id are those of the invite it redeemed, or the caller's and no invite.
   */
  lemma AddedRecord(c: Conf, p: Params, now: int, c': Conf)
    requires ValidSubnet(c.subnet) && "" !in c.peers && AddPeer(c, p, now, c', Added)
    ensures p.id !in c.peers && OthersKept(c, c', p.id) && c'.blocked == c.blocked - {p.id}
    ensures c'.subnet == c.subnet && c'.dns == c.dns
    ensures c'.peers[p.id].name == p.name && c'.peers[p.id].confirmed == p.confirmed
    ensures !p.ip.Unset? ==> c'.peers[p.id].ip == p.ip
    ensures var r := c'.peers[p.id];
            if p.token == "" then
              r.allowExit == p.allowExit && r.inviteId == "" && c'.invites == c.invites && (!p.uniquifyAlias ==> r.alias == p.alias)
            else
              && Redeems(c, p.token, now, r.inviteId) && SpentOne(c, c', r.inviteId)
              && r.allowExit == c.invites[r.inviteId].allowExit
              && (!p.uniquifyAlias ==> r.alias == c.invites[r.inviteId].alias)
  {
    if p.token == "" {
      var alias, ip := Chosen(c.(blocked := c.blocked - {p.id}), p, p.alias, p.allowExit, "", c');
      PlainRecord(c, p, c', alias, ip);
    } else {
      var id := Redeemed(c, p, now, c', Added);
      var spent := Spend(c.(blocked := c.blocked - {p.id}), id);
      var alias, ip := Chosen(spent, p, c.invites[id].alias, c.invites[id].allowExit, id, c');
      RedeemedRecord(c, p, c', alias, ip, id);
    }
  }

  lemma PlainRecord(c: Conf, p: Params, c': Conf, alias: string, ip: Ip)
    requires p.id !in c.peers && c' == Insert(c.(blocked := c.blocked - {p.id}), p, alias, ip, p.allowExit, "")
    ensures OthersKept(c, c', p.id) && c'.blocked == c.blocked - {p.id} && c'.subnet == c.subnet && c'.dns == c.dns && c'.invites == c.invites
    ensures c'.peers[p.id] == KnownPeer(p.name, alias, ip, p.confirmed, p.allowExit, "")
  {
  }

  lemma RedeemedRecord(c: Conf, p: Params, c': Conf, alias: string, ip: Ip, id: string)
    requires p.id !in c.peers && id in c.invites
    requires c' == Insert(Spend(c.(blocked := c.blocked - {p.id}), id), p, alias, ip, c.invites[id].allowExit, id)
    ensures OthersKept(c, c', p.id) && c'.blocked == c.blocked - {p.id} && c'.subnet == c.subnet && c'.dns == c.dns && SpentOne(c, c', id)
    ensures c'.peers[p.id] == KnownPeer(p.name, alias, ip, p.confirmed, c.invites[id].allowExit, id)
  {
  }

  /** An AddPeer that fails lifts the block, may have spent a use, and stores nothing. */
  lemma RefusedRecord(c: Conf, p: Params, now: int, c': Conf, out: Outcome)
    requires ValidSubnet(c.subnet) && AddPeer(c, p, now, c', out) && out != Added
    ensures c' == c.(blocked := c.blocked - {p.id}, invites := c'.invites)
    ensures c'.invites == c.invites || exists id :: Redeems(c, p.token, now, id) && SpentOne(c, c', id)
    ensures out == AlreadyKnown <==> p.id in c.peers
  {
    if p.token != "" && out != AlreadyKnown && out != InviteRejected {
      var id := Redeemed(c, p, now, c', out);
      assert SpentOne(c, c', id);
    }
  }

  // ---- The other operations --------------------------------------------------------------------------

  /** An accepted update stores alias, address and permission; a refused one changes nothing. */
  lemma UpdatedRecord(c: Conf, id: string, alias: string, ip: Ip, allowExit: bool)
    requires ValidSubnet(c.subnet)
    ensures var c' := UpdatePeer(c, id, alias, ip, allowExit);
            if AcceptsUpdate(c, id, alias, ip) then
              && c' == c.(peers := c'.peers) && OthersKept(c, c', id)
              && var r := c'.peers[id];
                 && r.alias == alias && r.ip == ip && r.allowExit == allowExit
                 && r.name == c.peers[id].name && r.confirmed == c.peers[id].confirmed && r.inviteId == c.peers[id].inviteId
            else c' == c
  {
  }

  /** A merged status stores the name and confirms; the permission is not the peer's to give. */
  lemma MergedRecord(c: Conf, id: string, name: string, c': Conf)
    requires MergeStatus(c, id, name, c')
    ensures if id in c.peers then
              && c' == c.(peers := c'.peers) && OthersKept(c, c', id)
              && var r := c'.peers[id];
                 && r.name == name && r.confirmed && r.ip == c.peers[id].ip
                 && r.allowExit == c.peers[id].allowExit && r.inviteId == c.peers[id].inviteId
                 && (c.peers[id].alias != "" ==> r.alias == c.peers[id].alias)
            else c' == c
  {
  }

  // ---- Over a run --------------------------------------------------------------------------------------

  /** The operation decides about the peer's permission. */
  predicate Settles(c: Conf, op: Op, id: string)
    requires ValidSubnet(c.subnet)
  {
    match op
    case Add(p, _, out) => p.id == id && out == Added
    case Update(who, alias, ip, _) => who == id && AcceptsUpdate(c, id, alias, ip)
    case _ => false
  }

  /** And gives it: the user ticked it, or the invite that was redeemed carries it. */
  predicate Gives(c: Conf, op: Op, c': Conf, id: string)
    requires id in c'.peers
  {
    match op
    case Add(p, now, _) =>
      if p.token == "" then p.allowExit
      else var invite := c'.peers[id].inviteId; Redeems(c, p.token, now, invite) && c.invites[invite].allowExit
    case Update(_, _, _, allowExit) => allowExit
    case _ => false
  }

  lemma PermissionStep(c: Conf, op: Op, c': Conf, id: string)
    requires Step(c, op, c') && AliasesDistinct(c) && id in c'.peers
    ensures if Settles(c, op, id) then c'.peers[id].allowExit <==> Gives(c, op, c', id)
            else id in c.peers && c'.peers[id].allowExit == c.peers[id].allowExit
  {
    match op
    case Add(p, now, out) =>
      if out == Added {
        AddedRecord(c, p, now, c');
      } else {
        RefusedRecord(c, p, now, c', out);
      }
    case Update(who, alias, ip, allowExit) => UpdatedRecord(c, who, alias, ip, allowExit);
    case Merge(who, name) => MergedRecord(c, who, name, c');
    case Reload => ReloadKeepsPermissions(c, c', id);
    case _ =>
  }

  lemma ReloadKeepsPermissions(c: Conf, c': Conf, id: string)
    requires ValidSubnet(c.subnet) && Loads(Stored(c), c') && id in c'.peers
    ensures id in c.peers && c'.peers[id].allowExit == c.peers[id].allowExit
  {
    LoadsServe(Stored(c), c');
    assert Completed(c.peers[id], c'.peers[id], c'.dns);
  }

  ghost predicate SettledAt(t: seq<Conf>, ops: seq<Op>, k: nat, id: string)
    requires IsRun(t, ops) && k < |ops|
  {
    Settles(t[k], ops[k], id)
  }

  ghost predicate GivenAt(t: seq<Conf>, ops: seq<Op>, k: nat, id: string)
    requires IsRun(t, ops) && k < |ops| && id in t[k + 1].peers
  {
    Gives(t[k], ops[k], t[k + 1], id)
  }

  lemma PermissionAt(t: seq<Conf>, ops: seq<Op>, k: nat, id: string)
    requires IsRun(t, ops) && k < |ops| && AliasesDistinct(t[0]) && id in t[k + 1].peers
    ensures if SettledAt(t, ops, k, id) then t[k + 1].peers[id].allowExit <==> GivenAt(t, ops, k, id)
            else id in t[k].peers && t[k + 1].peers[id].allowExit == t[k].peers[id].allowExit
  {
    RunKeepsAliases(t, ops, k);
    PermissionStep(t[k], ops[k], t[k + 1], id);
  }

  /** From moment `k` on nobody decided about the permission again. */
  ghost predicate Unsettled(t: seq<Conf>, ops: seq<Op>, k: nat, i: nat, id: string)
    requires IsRun(t, ops) && i < |t|
  {
    forall j: nat :: k <= j < i ==> !SettledAt(t, ops, j, id)
  }

  lemma {:induction false} PermissionStays(t: seq<Conf>, ops: seq<Op>, k: nat, i: nat, id: string)
    requires IsRun(t, ops) && k <= i < |t| && AliasesDistinct(t[0]) && id in t[i].peers && Unsettled(t, ops, k, i, id)
    ensures id in t[k].peers && t[i].peers[id].allowExit == t[k].peers[id].allowExit
    decreases i
  {
    if k < i {
      PermissionAt(t, ops, i - 1, id);
      assert !SettledAt(t, ops, i - 1, id);
      PermissionStays(t, ops, k, i - 1, id);
    }
  }

  /**
   Over every run: a peer has exit permission exactly if the last successful AddPeer or update of it
   gave it, the user by ticking it or the redeemed invite, however names, addresses, merged status,
   other peers and restarts came in between.
   */
  lemma PermissionHasOrigin(t: seq<Conf>, ops: seq<Op>, k: nat, i: nat, id: string)
    requires IsRun(t, ops) && k < i < |t| && AliasesDistinct(t[0]) && id in t[i].peers
    requires SettledAt(t, ops, k, id) && Unsettled(t, ops, k + 1, i, id)
    ensures id in t[k + 1].peers && (t[i].peers[id].allowExit <==> GivenAt(t, ops, k, id))
  {
    PermissionStays(t, ops, k + 1, i, id);
    PermissionAt(t, ops, k, id);
  }

  /** What an invite was created to give. */
  predicate SameTerms(i: Invite, j: Invite) {
    i.token == j.token && i.alias == j.alias && i.allowExit == j.allowExit && i.maxUses == j.maxUses && i.expiresAt == j.expiresAt
  }

  lemma TermsStep(c: Conf, op: Op, c': Conf, id: string)
    requires Fair(c, op) && Step(c, op, c') && AliasesDistinct(c) && id in c.invites
    ensures id in c'.invites && SameTerms(c.invites[id], c'.invites[id])
  {
    match op
    case Add(p, now, out) =>
      if out == Added {
        AddedRecord(c, p, now, c');
      } else {
        RefusedRecord(c, p, now, c', out);
      }
    case Create(_, _, _, _, _, _) =>
    case Revoke(_) =>
    case _ => SameInvites(c, op, c');
  }

  lemma TermsAt(t: seq<Conf>, ops: seq<Op>, k: nat, id: string)
    requires IsRun(t, ops) && k < |ops| && AliasesDistinct(t[0]) && id in t[k].invites
    ensures id in t[k + 1].invites && SameTerms(t[k].invites[id], t[k + 1].invites[id])
  {
    RunKeepsAliases(t, ops, k);
    TermsStep(t[k], ops[k], t[k + 1], id);
  }

  /** An invite is never lost and its terms never change. */
  lemma {:induction false} TermsStay(t: seq<Conf>, ops: seq<Op>, k: nat, i: nat, id: string)
    requires IsRun(t, ops) && k <= i < |t| && AliasesDistinct(t[0]) && id in t[k].invites
    ensures id in t[i].invites && SameTerms(t[k].invites[id], t[i].invites[id])
    decreases i
  {
    if k < i {
      TermsStay(t, ops, k, i - 1, id);
      TermsAt(t, ops, i - 1, id);
    }
  }
}
