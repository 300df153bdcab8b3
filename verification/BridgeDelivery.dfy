/** What the envelopes of a bridge do where they arrive: every sent envelope is accepted exactly where it
belongs, members get the secret and can sign with it, and a removed member is left without one. */
module BridgeDelivery {
  import opened Errors
  import opened Bridges
  import opened BridgeNet
  import opened BridgeRuns
  import opened BridgeRosters
  import opened BridgeExact

  // ----- every sent envelope has a usable recipient

  ghost predicate Deliverable(c: Checks, net: Net) {
    forall d :: d in net.sent ==> !c.weak(d.recipient)
  }

  lemma EncodedUsable(c: Checks, drafts: seq<Package>, signer: Option<Secret>, d: Package)
    requires EncodeAll(c, drafts, signer).Ok? && d in EncodeAll(c, drafts, signer).value
    ensures !c.weak(d.recipient)
  {
    var draft := EncodedFrom(c, drafts, signer, d);
  }

  lemma RemovalUsable(c: Checks, t: Table, uid: string, removed: string, localLabel: string, encryptionSk: Secret,
                      draws: Draws, d: Package)
    requires PlanRemoval(c, t, uid, removed, localLabel, encryptionSk, draws).Ok?
    requires d in PlanRemoval(c, t, uid, removed, localLabel, encryptionSk, draws).value.1
    ensures !c.weak(d.recipient)
  {
    RemovalFacts(c, t, uid, removed, localLabel, encryptionSk, draws);
    var secret := MayRemove(t, uid, removed, localLabel, encryptionSk).value;
    var draft := RemovalDraft(c, t[uid], uid, removed, localLabel, secret, draws, d);
  }

  lemma CreationUsable(c: Checks, s: Step, d: Package)
    requires s.PlanCreation?
    requires var r := PlanCreate(c, s.keyId, s.title, s.memberInputs, s.supervisorInputs, s.localLabel, s.uid, s.draws);
      r.Ok? && d in r.value.1
    ensures !c.weak(d.recipient)
  {
    var plan := PlanCreate(c, s.keyId, s.title, s.memberInputs, s.supervisorInputs, s.localLabel, s.uid, s.draws).value.0;
    EncodedUsable(c, RosterDrafts(CreationTerms(plan), Invite, s.draws.secret, s.draws.wraps), None, d);
  }

  lemma StepDeliverable(c: Checks, net: Net, s: Step)
    requires Deliverable(c, net) && Enabled(net, s)
    ensures Deliverable(c, After(c, net, s))
  {
    forall d | d in After(c, net, s).sent && d !in net.sent ensures !c.weak(d.recipient) {
      if s.PlanCreation? {
        CreationUsable(c, s, d);
      } else {
        RemovalUsable(c, net.stores[s.i], s.uid, s.removed, s.localName, s.encryptionSk, s.draws, d);
      }
    }
  }

  lemma {:induction false} RunDeliverable(c: Checks, net: Net, steps: seq<Step>)
    requires Deliverable(c, net) && IsRun(c, net, steps)
    ensures Deliverable(c, AfterRun(c, net, steps))
    decreases steps
  {
    if steps != [] {
      StepDeliverable(c, net, steps[0]);
      RunDeliverable(c, After(c, net, steps[0]), steps[1..]);
    }
  }

  // ----- where a sent envelope is accepted

  /** A first-generation package is accepted, under its recipient's key, at every store that does not know
  the uid, and nowhere else. */
  lemma SentOpens(c: Checks, net: Net, i: nat, d: Package, sk: Secret)
    requires Inv(net) && Deliverable(c, net) && i < |net.stores| && d in net.sent && !d.kind.Destroy?
    requires d.public in net.epochs && net.epochs[d.public].parent.None?
    ensures Import(c, net.stores[i], d, sk).Ok? <==> d.recipient == PublicOf(sk) && d.uid !in net.stores[i]
  {
    assert PackageOk(net.epochs, d) && EpochOk(net.epochs, d.public);
    ImportSucceedsIff(c, net.stores[i], d, sk);
  }

  /** A package of a later generation is accepted at every live store that holds the key it replaces, and
  nowhere else. */
  lemma SentRotates(c: Checks, net: Net, i: nat, d: Package, sk: Secret)
    requires Inv(net) && Deliverable(c, net) && i < |net.stores| && d in net.sent && !d.kind.Destroy?
    requires d.public in net.epochs && net.epochs[d.public].parent.Some?
    ensures Import(c, net.stores[i], d, sk).Ok? <==>
      && d.recipient == PublicOf(sk) && d.uid in net.stores[i] && !net.stores[i][d.uid].destroyed
      && net.epochs[d.public].parent == Some(net.stores[i][d.uid].public)
  {
    assert PackageOk(net.epochs, d) && EpochOk(net.epochs, d.public);
    ImportSucceedsIff(c, net.stores[i], d, sk);
    if d.uid in net.stores[i] {
      StoreBridge(net, i, d.uid);
    }
  }

  /** A notice is accepted where the bridge is destroyed already or still has the key the notice names. */
  lemma SentNotices(c: Checks, net: Net, i: nat, d: Package, sk: Secret)
    requires Inv(net) && i < |net.stores| && d in net.sent && d.kind.Destroy?
    ensures Import(c, net.stores[i], d, sk).Ok? <==>
      && d.recipient == PublicOf(sk) && d.uid in net.stores[i]
      && (net.stores[i][d.uid].destroyed || net.stores[i][d.uid].public == d.public)
  {
    assert PackageOk(net.epochs, d);
    ImportSucceedsIff(c, net.stores[i], d, sk);
  }

  // ----- the importer has the secret

  /** The store's own row is this member's, and its sealed secret, the only one, opens with this key to the
  secret of the bridge's public key. */
  ghost predicate MemberHolds(b: Bridge, name: string, sk: Secret, secret: Secret) {
    && !b.destroyed && IsMember(b, name) && b.parties[name].encryption == PublicOf(sk)
    && (forall l :: l in b.parties ==> (b.parties[l].isLocal <==> l == name))
    && b.sealed.Keys == {name} && UnsealLocal(b, name, sk) == Ok(secret) && PublicOf(secret) == b.public
  }

  ghost predicate ImportsTo(c: Checks, net: Net, j: nat, d: Package, sk: Secret) {
    && j < |net.stores| && Import(c, net.stores[j], d, sk).Ok? && d.uid in Import(c, net.stores[j], d, sk).value
  }

  function ImportedBridge(c: Checks, net: Net, j: nat, d: Package, sk: Secret): Bridge
    requires ImportsTo(c, net, j, d, sk)
  {
    Import(c, net.stores[j], d, sk).value[d.uid]
  }

  /** Importing a member's package gives the member the bridge secret and no other store its place. */
  lemma ImportGivesSecret(c: Checks, net: Net, i: nat, d: Package, sk: Secret)
    requires Inv(net) && i < |net.stores| && d in net.sent && !d.kind.Destroy? && Import(c, net.stores[i], d, sk).Ok?
    ensures ImportsTo(c, net, i, d, sk)
    ensures var b := ImportedBridge(c, net, i, d, sk);
      && b.public == d.public && b.generation == d.generation && b.salt == d.salt
      && (d.secret.Some? ==> MemberHolds(b, d.recipientLabel, sk, d.secret.value.1))
      && (d.secret.None? ==> b.sealed == map[] && !IsMember(b, d.recipientLabel))
  {
    assert PackageOk(net.epochs, d) && EpochOk(net.epochs, d.public);
    ImportSucceedsIff(c, net.stores[i], d, sk);
    ImportExact(c, net.stores[i], d, sk);
    var b := Import(c, net.stores[i], d, sk).value[d.uid];
    if d.secret.Some? {
      assert d.recipientLabel in d.members && d.members[d.recipientLabel].encryption == PublicOf(sk);
    }
  }

  /** End to end: whoever has imported a member's package can sign, and every live store with the same key
  whose roster has signer and verifier and whose registry does not conflict accepts the artifact. */
  lemma ImporterSigns(c: Checks, net: Net, i: nat, d: Package, sk: Secret, registry: Registry, signingSk: Secret,
                      signatureSalt: Salt, message: string, j: nat, verifier: string, registryJ: Registry)
    requires Inv(net) && i < |net.stores| && d in net.sent && !d.kind.Destroy? && d.secret.Some?
    requires Import(c, net.stores[i], d, sk).Ok?
    requires d.recipientLabel in d.members && d.members[d.recipientLabel].signing == PublicOf(signingSk)
    requires NoConflict(c, registry, d.recipientLabel, PublicOf(signingSk))
    requires NoConflict(c, registryJ, d.recipientLabel, PublicOf(signingSk))
    ensures var after := After(c, net, ImportSent(i, d, sk));
      && i < |after.stores| && d.uid in after.stores[i]
      && var a := SignMessage(c, after.stores[i], registry, d.uid, d.recipientLabel, sk, signingSk, signatureSalt, message);
         && a.Ok?
         && (j < |after.stores| && d.uid in after.stores[j] && after.stores[j][d.uid].public == d.public
             && !after.stores[j][d.uid].destroyed
             && IsMember(after.stores[j][d.uid], d.recipientLabel) && IsMember(after.stores[j][d.uid], verifier)
             ==> VerifyMessage(c, after.stores[j], registryJ, d.uid, verifier, message, a.value) == Ok(()))
  {
    var after := After(c, net, ImportSent(i, d, sk));
    AfterImport(c, net, i, d, sk);
    ImportGivesSecret(c, net, i, d, sk);
    ImportExact(c, net.stores[i], d, sk);
    StepKeeps(c, net, ImportSent(i, d, sk));
    SignExact(c, after.stores[i], registry, d.uid, d.recipientLabel, sk, signingSk, signatureSalt, message);
    if j < |after.stores| && d.uid in after.stores[j] && after.stores[j][d.uid].public == d.public
       && !after.stores[j][d.uid].destroyed
       && IsMember(after.stores[j][d.uid], d.recipientLabel) && IsMember(after.stores[j][d.uid], verifier)
    {
      SameKeyAgrees(after, i, j, d.uid, d.uid);
      assert SameParty(after.stores[i][d.uid].parties[d.recipientLabel], after.stores[j][d.uid].parties[d.recipientLabel]);
      RegistryAgreesIff(c, registryJ, d.recipientLabel, PublicOf(signingSk));
      SignedIsAccepted(c, after, i, j, d.uid, d.recipientLabel, verifier, registry, registryJ, sk, signingSk,
                       signatureSalt, message);
    }
  }

  // ----- a removal, from the plan to the stores

  /** The envelope a removal has sent for this label of the old roster. */
  lemma RemovalSends(c: Checks, net: Net, s: Step, l: string) returns (d: Package)
    requires Inv(net) && s.PlanRemove? && Enabled(net, s)
    requires PlanRemoval(c, net.stores[s.i], s.uid, s.removed, s.localName, s.encryptionSk, s.draws).Ok?
    requires s.uid in net.stores[s.i] && l in net.stores[s.i][s.uid].parties
    ensures d in After(c, net, s).sent && d.recipientLabel == l && d.uid == s.uid
    ensures Delivered(net.stores[s.i][s.uid], s.removed, s.draws, d)
  {
    var t := net.stores[s.i];
    RemovalAddressesEveryone(c, t, s.uid, s.removed, s.localName, s.encryptionSk, s.draws);
    var packages := PlanRemoval(c, t, s.uid, s.removed, s.localName, s.encryptionSk, s.draws).value.1;
    d := PackageFor(packages, t[s.uid].parties.Keys, l);
    RemovalDelivered(c, t, s.uid, s.removed, s.localName, s.encryptionSk, s.draws, d);
    assert d in PackageSet(packages);
  }

  lemma PlannedEpoch(c: Checks, net: Net, s: Step)
    requires Inv(net) && s.PlanRemove? && Enabled(net, s)
    requires PlanRemoval(c, net.stores[s.i], s.uid, s.removed, s.localName, s.encryptionSk, s.draws).Ok?
    requires s.uid in net.stores[s.i]
    ensures After(c, net, s).stores == net.stores
    ensures TwoRemain(net.stores[s.i][s.uid].parties, s.removed) ==>
      && PublicOf(s.draws.secret) in After(c, net, s).epochs
      && After(c, net, s).epochs[PublicOf(s.draws.secret)].parent == Some(net.stores[s.i][s.uid].public)
  {
    RemovalPlanned(c, net.stores[s.i], s.uid, s.removed, s.localName, s.encryptionSk, s.draws);
  }

  /** Store j has this live bridge and the key. */
  ghost predicate HoldsKey(net: Net, j: nat, uid: string, p: Public) {
    j < |net.stores| && uid in net.stores[j] && !net.stores[j][uid].destroyed && net.stores[j][uid].public == p
  }

  /** The bridge as a remaining member has it after the rotation. */
  ghost predicate CarriedOver(was: Bridge, removed: string, draws: Draws, l: string, sk: Secret, b: Bridge) {
    && MemberHolds(b, l, sk, draws.secret) && b.generation == was.generation + 1 && b.salt == draws.salt
    && forall m :: IsMember(b, m) <==> Remains(was.parties, removed, m)
  }

  lemma RotationArrives(c: Checks, net: Net, j: nat, was: Bridge, removed: string, draws: Draws, d: Package, sk: Secret)
    requires Inv(net) && Deliverable(c, net) && d in net.sent && Delivered(was, removed, draws, d)
    requires TwoRemain(was.parties, removed) && Remains(was.parties, removed, d.recipientLabel)
    requires was.parties[d.recipientLabel].encryption == PublicOf(sk)
    requires PublicOf(draws.secret) in net.epochs && net.epochs[PublicOf(draws.secret)].parent == Some(was.public)
    requires HoldsKey(net, j, d.uid, was.public)
    ensures ImportsTo(c, net, j, d, sk)
    ensures CarriedOver(was, removed, draws, d.recipientLabel, sk, ImportedBridge(c, net, j, d, sk))
  {
    SentRotates(c, net, j, d, sk);
    ImportGivesSecret(c, net, j, d, sk);
    ImportExact(c, net.stores[j], d, sk);
  }

  /** Every remaining member that still holds the old key is carried over: its envelope is sent, its live
  store accepts it, and then has the new key, generation and roster and opens the new secret. */
  lemma RotationReaches(c: Checks, net: Net, s: Step, j: nat, l: string, sk: Secret) returns (d: Package)
    requires Inv(net) && Deliverable(c, net) && s.PlanRemove? && Enabled(net, s)
    requires PlanRemoval(c, net.stores[s.i], s.uid, s.removed, s.localName, s.encryptionSk, s.draws).Ok?
    requires s.uid in net.stores[s.i] && TwoRemain(net.stores[s.i][s.uid].parties, s.removed)
    requires Remains(net.stores[s.i][s.uid].parties, s.removed, l)
    requires net.stores[s.i][s.uid].parties[l].encryption == PublicOf(sk)
    requires HoldsKey(net, j, s.uid, net.stores[s.i][s.uid].public)
    ensures d in After(c, net, s).sent && d.uid == s.uid && d.recipientLabel == l && ImportsTo(c, net, j, d, sk)
    ensures CarriedOver(net.stores[s.i][s.uid], s.removed, s.draws, l, sk, ImportedBridge(c, net, j, d, sk))
  {
    StepKeeps(c, net, s);
    StepDeliverable(c, net, s);
    PlannedEpoch(c, net, s);
    d := RemovalSends(c, net, s, l);
    RotationArrives(c, After(c, net, s), j, net.stores[s.i][s.uid], s.removed, s.draws, d, sk);
  }

  /** No sealed secret, and no member of a live bridge any more. */
  ghost predicate CutOff(was: Bridge, removed: string, b: Bridge) {
    && b.sealed == map[]
    && (b.destroyed || (!IsMember(b, removed) && Watches(was.parties, removed, removed)))
  }

  lemma RemovedArrives(c: Checks, net: Net, j: nat, was: Bridge, removed: string, draws: Draws, d: Package, sk: Secret)
    requires Inv(net) && Deliverable(c, net) && d in net.sent
    requires Delivered(was, removed, draws, d) && d.recipientLabel == removed
    requires was.parties[removed].encryption == PublicOf(sk) && HoldsKey(net, j, d.uid, was.public)
    requires TwoRemain(was.parties, removed) ==>
      PublicOf(draws.secret) in net.epochs && net.epochs[PublicOf(draws.secret)].parent == Some(was.public)
    ensures ImportsTo(c, net, j, d, sk) && CutOff(was, removed, ImportedBridge(c, net, j, d, sk))
  {
    if d.kind.Destroy? {
      SentNotices(c, net, j, d, sk);
    } else {
      SentRotates(c, net, j, d, sk);
      ImportGivesSecret(c, net, j, d, sk);
    }
    ImportExact(c, net.stores[j], d, sk);
  }

  /** The removed member's store, if it still holds the old key, accepts what it is sent, and is left without
  any sealed secret. */
  lemma RemovedIsCutOff(c: Checks, net: Net, s: Step, j: nat, sk: Secret) returns (d: Package)
    requires Inv(net) && Deliverable(c, net) && s.PlanRemove? && Enabled(net, s)
    requires PlanRemoval(c, net.stores[s.i], s.uid, s.removed, s.localName, s.encryptionSk, s.draws).Ok?
    requires s.uid in net.stores[s.i] && IsMember(net.stores[s.i][s.uid], s.removed)
    requires net.stores[s.i][s.uid].parties[s.removed].encryption == PublicOf(sk)
    requires HoldsKey(net, j, s.uid, net.stores[s.i][s.uid].public)
    ensures d in After(c, net, s).sent && d.uid == s.uid && d.recipientLabel == s.removed && ImportsTo(c, net, j, d, sk)
    ensures CutOff(net.stores[s.i][s.uid], s.removed, ImportedBridge(c, net, j, d, sk))
  {
    StepKeeps(c, net, s);
    StepDeliverable(c, net, s);
    PlannedEpoch(c, net, s);
    d := RemovalSends(c, net, s, s.removed);
    RemovedArrives(c, After(c, net, s), j, net.stores[s.i][s.uid], s.removed, s.draws, d, sk);
  }

  // ----- a creation, from the plan to the stores

  /** The bridge as an invited member has it. */
  ghost predicate Joined(s: Step, k: nat, sk: Secret, b: Bridge)
    requires s.PlanCreation? && k < |s.memberInputs|
  {
    && MemberHolds(b, s.memberInputs[k].name, sk, s.draws.secret) && b.generation == 1 && b.salt == s.draws.salt
    && forall m :: IsMember(b, m) <==> NameAmong(s.memberInputs, m)
  }

  lemma InviteArrives(c: Checks, net: Net, s: Step, j: nat, k: nat, d: Package, sk: Secret)
    requires Inv(net) && Deliverable(c, net) && s.PlanCreation? && k < |s.memberInputs| && Invited(s, k, d)
    requires d in net.sent && d.recipient == PublicOf(sk) && j < |net.stores| && d.uid !in net.stores[j]
    requires d.public in net.epochs && net.epochs[d.public].parent.None?
    ensures ImportsTo(c, net, j, d, sk) && Joined(s, k, sk, ImportedBridge(c, net, j, d, sk))
  {
    SentOpens(c, net, j, d, sk);
    ImportGivesSecret(c, net, j, d, sk);
    ImportExact(c, net.stores[j], d, sk);
  }

  /** Every member of a creation is invited: its envelope is sent, any store that does not know the bridge
  accepts it under the member's key, and then opens the bridge secret. */
  lemma CreationReaches(c: Checks, net: Net, s: Step, j: nat, k: nat, sk: Secret) returns (d: Package)
    requires Inv(net) && Deliverable(c, net) && s.PlanCreation? && Enabled(net, s)
    requires CanCreate(c, s.memberInputs, s.supervisorInputs, s.localLabel)
    requires k < |s.memberInputs| && s.memberInputs[k].encryption == PublicOf(sk)
    requires j < |net.stores| && s.uid !in net.stores[j]
    ensures d in After(c, net, s).sent && d.uid == s.uid && d.recipientLabel == s.memberInputs[k].name
    ensures ImportsTo(c, net, j, d, sk) && Joined(s, k, sk, ImportedBridge(c, net, j, d, sk))
  {
    StepKeeps(c, net, s);
    StepDeliverable(c, net, s);
    d := CreationSends(c, net, s, k);
    InviteArrives(c, After(c, net, s), s, j, k, d, sk);
  }

  /** The invitation of the k-th member. */
  ghost predicate Invited(s: Step, k: nat, d: Package)
    requires s.PlanCreation? && k < |s.memberInputs|
  {
    && d.recipientLabel == s.memberInputs[k].name && d.recipient == s.memberInputs[k].encryption && d.uid == s.uid
    && d.kind.Invite? && d.generation == 1 && d.public == PublicOf(s.draws.secret) && d.salt == s.draws.salt
    && d.secret.Some? && d.secret.value.1 == s.draws.secret
    && forall m :: m in d.members <==> NameAmong(s.memberInputs, m)
  }

  lemma CreationSends(c: Checks, net: Net, s: Step, k: nat) returns (d: Package)
    requires Inv(net) && s.PlanCreation? && Enabled(net, s)
    requires CanCreate(c, s.memberInputs, s.supervisorInputs, s.localLabel) && k < |s.memberInputs|
    ensures d in After(c, net, s).sent && Invited(s, k, d)
    ensures d.public in After(c, net, s).epochs && After(c, net, s).epochs[d.public].parent.None?
    ensures After(c, net, s).stores == net.stores
  {
    CreationSucceedsIff(c, s.keyId, s.title, s.memberInputs, s.supervisorInputs, s.localLabel, s.uid, s.draws);
    CreationExact(c, s.keyId, s.title, s.memberInputs, s.supervisorInputs, s.localLabel, s.uid, s.draws);
    CreationAddressesEveryone(c, s.keyId, s.title, s.memberInputs, s.supervisorInputs, s.localLabel, s.uid, s.draws);
    var (plan, packages) := PlanCreate(c, s.keyId, s.title, s.memberInputs, s.supervisorInputs, s.localLabel, s.uid,
                                       s.draws).value;
    var name := s.memberInputs[k].name;
    assert NameAmong(s.memberInputs, name);
    d := PackageFor(packages, plan.members.Keys + plan.supervisors.Keys, name);
    CreationSendsRight(c, s.keyId, s.title, s.memberInputs, s.supervisorInputs, s.localLabel, s.uid, s.draws, d);
    PlanCreateFacts(c, s.keyId, s.title, s.memberInputs, s.supervisorInputs, s.localLabel, s.uid, s.draws);
    assert d in PackageSet(packages);
  }
}
