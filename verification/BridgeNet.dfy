/** Private bridges over many stores. Envelopes may be lost, duplicated and reordered: any store may
import any envelope that was ever sent, at any time and any number of times, and a plan may be
committed long after it was made, or never. */
module BridgeNet {
  import opened Errors
  import opened Bridges

  // ----- the system

  /** What a bridge key stands for: recorded when the key is drawn. */
  datatype Epoch = Epoch(uid: string, generation: nat, salt: Salt, members: map<string, MemberKeys>,
                         supervisors: map<string, Public>, parent: Option<Public>)

  /** The stores, the envelopes sent, the plans made by each store, and two records of the past:
  the epochs, and the labels each store's coordinator dropped since its last rotation. */
  datatype Net = Net(
    stores: seq<Table>,
    sent: set<Package>,
    creations: set<(nat, Creation)>,
    removals: set<(nat, Removal)>,
    epochs: map<Public, Epoch>,
    dropped: map<(nat, string), set<string>>)

  datatype Step =
    | PlanCreation(i: nat, keyId: Option<int>, title: Option<string>, memberInputs: seq<PartyInput>,
                   supervisorInputs: seq<PartyInput>, localLabel: Option<string>, uid: string, draws: Draws)
    | CommitNew(i: nat, creation: Creation, wrapSalt: Salt)
    | ImportSent(i: nat, package: Package, encryptionSk: Secret)
    | PlanRemove(i: nat, uid: string, removed: string, localName: string, encryptionSk: Secret, draws: Draws)
    | CommitRemove(i: nat, removal: Removal, wrapSalt: Salt)
    | Drop(i: nat, uid: string, removed: string)

  /** Only what was planned is committed, only what was sent is imported, and new keys and uids are fresh. */
  ghost predicate Enabled(net: Net, s: Step) {
    && s.i < |net.stores|
    && match s
       case PlanCreation(_, _, _, _, _, _, uid, d) =>
         PublicOf(d.secret) !in net.epochs && forall p :: p in net.epochs ==> net.epochs[p].uid != uid
       case CommitNew(i, creation, _) => (i, creation) in net.creations
       case ImportSent(_, package, _) => package in net.sent
       case PlanRemove(_, _, _, _, _, d) => PublicOf(d.secret) !in net.epochs
       case CommitRemove(i, removal, _) => (i, removal) in net.removals
       case Drop(_, _, _) => true
  }

  function DroppedAt(net: Net, i: nat, uid: string): set<string> {
    if (i, uid) in net.dropped then net.dropped[(i, uid)] else {}
  }

  ghost function PackageSet(ps: seq<Package>): set<Package> {
    set p | p in ps
  }

  ghost function Put(net: Net, i: nat, uid: string, t: Table, dropped: set<string>): Net
    requires i < |net.stores|
  {
    net.(stores := net.stores[i := t], dropped := net.dropped[(i, uid) := dropped])
  }

  /** Store i after an operation on one uid; a roster brought by a new key has no drops. */
  ghost function WithTable(net: Net, i: nat, uid: string, t: Table): Net
    requires i < |net.stores|
  {
    var same := uid in t && uid in net.stores[i] && t[uid].public == net.stores[i][uid].public;
    Put(net, i, uid, t, if same then DroppedAt(net, i, uid) else {})
  }

  ghost function AfterPlanCreation(c: Checks, net: Net, s: Step): Net
    requires s.PlanCreation?
  {
    match PlanCreate(c, s.keyId, s.title, s.memberInputs, s.supervisorInputs, s.localLabel, s.uid, s.draws)
    case Err(_) => net
    case Ok((plan, packages)) =>
      net.(sent := net.sent + PackageSet(packages), creations := net.creations + {(s.i, plan)},
           epochs := net.epochs[plan.public := Epoch(plan.uid, 1, plan.salt, plan.members, plan.supervisors, None)])
  }

  ghost function AfterPlanRemove(c: Checks, net: Net, s: Step): Net
    requires s.PlanRemove? && s.i < |net.stores|
  {
    match PlanRemoval(c, net.stores[s.i], s.uid, s.removed, s.localName, s.encryptionSk, s.draws)
    case Err(_) => net
    case Ok((plan, packages)) =>
      var planned := net.(sent := net.sent + PackageSet(packages), removals := net.removals + {(s.i, plan)});
      if plan.DestroyPlan? then planned
      else planned.(epochs := net.epochs[plan.public :=
        Epoch(plan.uid, plan.generation, plan.salt, plan.members, plan.supervisors, Some(net.stores[s.i][s.uid].public))])
  }

  ghost function After(c: Checks, net: Net, s: Step): Net
    requires s.i < |net.stores|
  {
    match s
    case PlanCreation(_, _, _, _, _, _, _, _) => AfterPlanCreation(c, net, s)
    case CommitNew(i, creation, wrapSalt) => (
      match CommitCreation(c, net.stores[i], creation, wrapSalt)
      case Ok(t) => WithTable(net, i, creation.uid, t)
      case Err(_) => net)
    case ImportSent(i, package, encryptionSk) => (
      match Import(c, net.stores[i], package, encryptionSk)
      case Ok(t) => WithTable(net, i, package.uid, t)
      case Err(_) => net)
    case PlanRemove(_, _, _, _, _, _) => AfterPlanRemove(c, net, s)
    case CommitRemove(i, removal, wrapSalt) => (
      match CommitRemoval(c, net.stores[i], removal, wrapSalt)
      case Ok(t) => WithTable(net, i, removal.uid, t)
      case Err(_) => net)
    case Drop(i, uid, removed) => (
      match DropMember(net.stores[i], uid, removed)
      case Ok(t) =>
        if net.stores[i][uid].destroyed then net
        else Put(net, i, uid, t, DroppedAt(net, i, uid) + {removed})
      case Err(_) => net)
  }

  ghost function Start(n: nat): Net {
    Net(seq(n, _ => map[]), {}, {}, {}, map[], map[])
  }

  // ----- the invariant

  predicate EpochOk(epochs: map<Public, Epoch>, p: Public)
    requires p in epochs
  {
    && epochs[p].members.Keys !! epochs[p].supervisors.Keys
    && match epochs[p].parent
       case None => epochs[p].generation == 1
       case Some(q) => q in epochs && epochs[q].uid == epochs[p].uid && epochs[q].generation + 1 == epochs[p].generation
  }

  /** Every key of the uid's first generation is the same key. */
  ghost predicate OneFirst(epochs: map<Public, Epoch>) {
    forall p, q :: p in epochs && q in epochs && First(epochs[p], epochs[q]) ==> p == q
  }

  predicate First(a: Epoch, b: Epoch) {
    a.uid == b.uid && a.generation == 1 && b.generation == 1
  }

  ghost predicate EpochsOk(epochs: map<Public, Epoch>) {
    (forall p :: p in epochs ==> EpochOk(epochs, p)) && OneFirst(epochs)
  }

  predicate SameTerms(e: Epoch, uid: string, generation: nat, salt: Salt) {
    e.uid == uid && e.generation == generation && e.salt == salt
  }

  /** The signature a package carries: none in the first generation, else by the key it replaces. */
  predicate AuthOk(e: Epoch, d: Package) {
    match e.parent
    case None => d.auth.None? && !d.kind.Rotate?
    case Some(q) => SignedBy(d, q) && !d.kind.Invite?
  }

  /** The package is signed by this key over all its fields, and no label on its roster is empty. */
  predicate SignedBy(d: Package, p: Public) {
    d.auth == Some(Signature(p, OfUpdate(UpdateOf(d)))) && "" !in d.members && "" !in d.supervisors
  }

  /** The recipient is on the roster in its role; members get a secret, supervisors none. */
  predicate ForRecipient(d: Package) {
    && RecipientOnRoster(d)
    && (d.role.MemberRole? <==> d.secret.Some?) && (d.role.MemberRole? <==> !d.kind.Supervisor?)
  }

  /** A sent envelope tells the truth about its key; a destroy notice is signed under the key it names. */
  predicate PackageOk(epochs: map<Public, Epoch>, d: Package) {
    && d.public in epochs && SameTerms(epochs[d.public], d.uid, d.generation, d.salt)
    && if d.kind.Destroy? then SignedBy(d, d.public)
       else
         && !d.kind.Other? && ForRecipient(d)
         && d.members == epochs[d.public].members && d.supervisors == epochs[d.public].supervisors
         && (d.secret.Some? ==> PublicOf(d.secret.value.1) == d.public)
         && AuthOk(epochs[d.public], d)
  }

  /** A roster row says what the epoch's roster says. */
  predicate PartyOk(e: Epoch, name: string, p: Party) {
    match p
    case MemberParty(encryption, signing, _) => name in e.members && e.members[name] == MemberKeys(encryption, signing)
    case SupervisorParty(encryption, _) => name !in e.members && name in e.supervisors && e.supervisors[name] == encryption
  }

  predicate SealedRowOk(b: Bridge, name: string)
    requires name in b.sealed
  {
    && IsMember(b, name) && b.parties[name].isLocal
    && b.sealed[name].box.to == b.parties[name].encryption
    && b.sealed[name].box.wrapSalt == b.sealed[name].wrapSalt
    && PublicOf(b.sealed[name].box.secret) == b.public
  }

  /** At most one sealed secret, none once destroyed, and it is the secret of the stored key. */
  ghost predicate SealedOk(b: Bridge) {
    && (forall x, y :: x in b.sealed && y in b.sealed ==> x == y)
    && (b.destroyed ==> b.sealed == map[])
    && (forall x :: x in b.sealed ==> SealedRowOk(b, x))
  }

  /** The roster is the epoch's, but for the labels dropped here. */
  ghost predicate RosterOk(e: Epoch, b: Bridge, dropped: set<string>) {
    && b.parties.Keys == e.members.Keys + e.supervisors.Keys - dropped
    && forall x :: x in b.parties ==> PartyOk(e, x, b.parties[x])
  }

  ghost predicate BridgeOk(epochs: map<Public, Epoch>, uid: string, b: Bridge, dropped: set<string>) {
    && b.public in epochs && SameTerms(epochs[b.public], uid, b.generation, b.salt)
    && RosterOk(epochs[b.public], b, dropped) && SealedOk(b)
  }

  ghost predicate CreationOk(epochs: map<Public, Epoch>, p: Creation) {
    && p.public in epochs && p.public == PublicOf(p.secret)
    && epochs[p.public] == Epoch(p.uid, 1, p.salt, p.members, p.supervisors, None)
  }

  /** A rotation is planned from the key the store held at the plan's generation. */
  ghost predicate RotationOk(epochs: map<Public, Epoch>, t: Table, p: Removal)
    requires p.RotatePlan?
  {
    && p.public in epochs && p.public == PublicOf(p.secret)
    && SameTerms(epochs[p.public], p.uid, p.generation, p.salt) && p.generation == p.expected + 1
    && epochs[p.public].members == p.members && epochs[p.public].supervisors == p.supervisors
    && p.uid in t && t[p.uid].generation >= p.expected
    && (t[p.uid].generation == p.expected ==> epochs[p.public].parent == Some(t[p.uid].public))
  }

  ghost predicate StoreOk(net: Net, i: nat)
    requires i < |net.stores|
  {
    forall uid :: uid in net.stores[i] ==> BridgeOk(net.epochs, uid, net.stores[i][uid], DroppedAt(net, i, uid))
  }

  ghost predicate PlansOk(net: Net) {
    && (forall p :: p in net.creations ==> CreationOk(net.epochs, p.1))
    && (forall p :: p in net.removals && p.1.RotatePlan? ==>
          p.0 < |net.stores| && RotationOk(net.epochs, net.stores[p.0], p.1))
  }

  ghost predicate SentOk(net: Net) {
    forall d :: d in net.sent ==> PackageOk(net.epochs, d)
  }

  ghost predicate Inv(net: Net) {
    EpochsOk(net.epochs) && SentOk(net) && PlansOk(net) && forall i :: 0 <= i < |net.stores| ==> StoreOk(net, i)
  }

  // ----- how one store's table may change

  /** The bridge is a later state of the other: the same key, or the key of a rotation signed under it. */
  ghost predicate Moves(epochs: map<Public, Epoch>, before: Bridge, after: Bridge) {
    && (before.destroyed ==> after == before)
    && (after.public == before.public ==> after.generation == before.generation)
    && (after.public != before.public ==>
          && after.generation == before.generation + 1
          && after.public in epochs && epochs[after.public].parent == Some(before.public))
  }

  /** Only the bridge of one uid changes, and it moves or appears. */
  ghost predicate TableMoves(epochs: map<Public, Epoch>, before: Table, after: Table, uid: string) {
    && (forall x :: x in before ==> x in after)
    && (forall x :: x != uid && x in after ==> x in before && after[x] == before[x])
    && (uid in before ==> Moves(epochs, before[uid], after[uid]))
  }

  // ----- rosters and seals of the operations

  lemma PartiesAreRoster(e: Epoch, b: Bridge, localLabel: Option<string>)
    requires e.members.Keys !! e.supervisors.Keys && b.parties == PartiesOf(e.members, e.supervisors, localLabel)
    ensures RosterOk(e, b, {})
  {
    assert b.parties.Keys == e.members.Keys + e.supervisors.Keys;
  }

  lemma SealLocalOk(c: Checks, b: Bridge, members: map<string, MemberKeys>, supervisors: map<string, Public>,
                    localLabel: Option<string>, wrapSalt: Salt, secret: Secret)
    requires SealLocal(c, members, localLabel, wrapSalt, secret) == Ok(b.sealed)
    requires b.parties == PartiesOf(members, supervisors, localLabel)
    requires PublicOf(secret) == b.public && !b.destroyed
    ensures SealedOk(b)
  {
    forall x | x in b.sealed ensures SealedRowOk(b, x) {
      assert localLabel == Some(x) && x in members;
    }
  }

  /** What a package makes of a bridge is in order: this is the heart of importing. */
  lemma ReplacedOk(c: Checks, epochs: map<Public, Epoch>, b: Bridge, d: Package)
    requires EpochsOk(epochs) && PackageOk(epochs, d) && !d.kind.Destroy?
    requires ReplaceRoster(c, b, d).Ok? && !b.destroyed
    requires b.public == d.public && b.generation == d.generation && b.salt == d.salt
    requires RecipientOnRoster(d)
    ensures BridgeOk(epochs, d.uid, ReplaceRoster(c, b, d).value, {})
  {
    var e := epochs[d.public];
    var after := ReplaceRoster(c, b, d).value;
    assert EpochOk(epochs, d.public);
    PartiesAreRoster(e, after, Some(d.recipientLabel));
    forall x | x in after.sealed ensures SealedRowOk(after, x) {
      assert x == d.recipientLabel;
    }
  }

  lemma InviteOk(c: Checks, epochs: map<Public, Epoch>, t: Table, d: Package)
    requires EpochsOk(epochs) && PackageOk(epochs, d) && !d.kind.Destroy? && InsertFromInvite(c, t, d).Ok?
    ensures var after := InsertFromInvite(c, t, d).value;
      && d.uid in after && BridgeOk(epochs, d.uid, after[d.uid], {}) && TableMoves(epochs, t, after, d.uid)
      && d.uid !in t
  {
    var bare := Bridge(NonEmpty(d.title), None, d.generation, d.public, d.salt, false, map[], map[]);
    ReplacedOk(c, epochs, bare, d);
  }

  lemma RotateOk(c: Checks, epochs: map<Public, Epoch>, t: Table, d: Package)
    requires EpochsOk(epochs) && PackageOk(epochs, d) && !d.kind.Destroy? && ApplyRotate(c, t, d).Ok?
    requires d.uid in t && t[d.uid].public in epochs && epochs[t[d.uid].public].generation == t[d.uid].generation
    ensures var after := ApplyRotate(c, t, d).value;
      && d.uid in after && BridgeOk(epochs, d.uid, after[d.uid], {}) && TableMoves(epochs, t, after, d.uid)
      && after[d.uid].public != t[d.uid].public
  {
    var b := t[d.uid];
    var title := if NonEmpty(d.title).Some? then NonEmpty(d.title) else b.title;
    ReplacedOk(c, epochs, b.(generation := d.generation, public := d.public, salt := d.salt, title := title), d);
    assert EpochOk(epochs, d.public);
  }

  lemma DestroyOk(epochs: map<Public, Epoch>, t: Table, d: Package, dropped: set<string>)
    requires ApplyDestroy(t, d).Ok? && d.uid in t && BridgeOk(epochs, d.uid, t[d.uid], dropped)
    ensures var after := ApplyDestroy(t, d).value;
      && d.uid in after && BridgeOk(epochs, d.uid, after[d.uid], dropped) && TableMoves(epochs, t, after, d.uid)
      && after[d.uid].public == t[d.uid].public
  {
  }

  // ----- putting a changed table back

  lemma PutKeeps(net: Net, i: nat, uid: string, t: Table, dropped: set<string>)
    requires Inv(net) && i < |net.stores| && uid in t && TableMoves(net.epochs, net.stores[i], t, uid)
    requires BridgeOk(net.epochs, uid, t[uid], dropped)
    ensures Inv(Put(net, i, uid, t, dropped))
  {
    var after := Put(net, i, uid, t, dropped);
    forall j | 0 <= j < |after.stores| ensures StoreOk(after, j) {
      assert StoreOk(net, j);
      forall x | x in after.stores[j]
        ensures BridgeOk(after.epochs, x, after.stores[j][x], DroppedAt(after, j, x))
      {
        if j != i || x != uid {
          assert DroppedAt(after, j, x) == DroppedAt(net, j, x);
          assert x in net.stores[j] && after.stores[j][x] == net.stores[j][x];
        }
      }
    }
    PlansStay(net, i, uid, t, after);
  }

  lemma PutTable(net: Net, i: nat, uid: string, t: Table)
    requires Inv(net) && i < |net.stores| && uid in t && TableMoves(net.epochs, net.stores[i], t, uid)
    requires BridgeOk(net.epochs, uid, t[uid], DroppedAt(WithTable(net, i, uid, t), i, uid))
    ensures Inv(WithTable(net, i, uid, t))
  {
    PutKeeps(net, i, uid, t, DroppedAt(WithTable(net, i, uid, t), i, uid));
  }

  lemma PlansStay(net: Net, i: nat, uid: string, t: Table, after: Net)
    requires PlansOk(net) && i < |net.stores| && TableMoves(net.epochs, net.stores[i], t, uid)
    requires after.epochs == net.epochs && after.creations == net.creations && after.removals == net.removals
    requires after.stores == net.stores[i := t]
    ensures PlansOk(after)
  {
    forall p | p in after.removals && p.1.RotatePlan? ensures RotationOk(after.epochs, after.stores[p.0], p.1) {
      assert RotationOk(net.epochs, net.stores[p.0], p.1);
      if p.0 == i && p.1.uid == uid {
        assert Moves(net.epochs, net.stores[i][uid], t[uid]);
      }
    }
  }

  lemma StoreBridge(net: Net, i: nat, uid: string)
    requires Inv(net) && i < |net.stores| && uid in net.stores[i]
    ensures BridgeOk(net.epochs, uid, net.stores[i][uid], DroppedAt(net, i, uid))
  {
    assert StoreOk(net, i);
  }

  // ----- each step keeps the invariant

  lemma ImportKeeps(c: Checks, net: Net, i: nat, d: Package, encryptionSk: Secret)
    requires Inv(net) && i < |net.stores| && d in net.sent && Import(c, net.stores[i], d, encryptionSk).Ok?
    ensures var t := Import(c, net.stores[i], d, encryptionSk).value;
      d.uid in t && TableMoves(net.epochs, net.stores[i], t, d.uid) && Inv(WithTable(net, i, d.uid, t))
  {
    var t := net.stores[i];
    assert PackageOk(net.epochs, d);
    if d.uid in t {
      StoreBridge(net, i, d.uid);
    }
    if d.kind.Destroy? {
      DestroyOk(net.epochs, t, d, DroppedAt(net, i, d.uid));
    } else if d.kind.Invite? || (d.kind.Supervisor? && d.generation == 1 && d.auth.None?) {
      InviteOk(c, net.epochs, t, d);
    } else {
      RotateOk(c, net.epochs, t, d);
    }
    PutTable(net, i, d.uid, Import(c, t, d, encryptionSk).value);
  }

  lemma CommitNewKeeps(c: Checks, net: Net, i: nat, p: Creation, wrapSalt: Salt)
    requires Inv(net) && i < |net.stores| && (i, p) in net.creations
    requires CommitCreation(c, net.stores[i], p, wrapSalt).Ok?
    ensures var t := CommitCreation(c, net.stores[i], p, wrapSalt).value;
      p.uid in t && TableMoves(net.epochs, net.stores[i], t, p.uid) && Inv(WithTable(net, i, p.uid, t))
  {
    assert CreationOk(net.epochs, (i, p).1);
    var t := CommitCreation(c, net.stores[i], p, wrapSalt).value;
    PartiesAreRoster(net.epochs[p.public], t[p.uid], p.localLabel);
    SealLocalOk(c, t[p.uid], p.members, p.supervisors, p.localLabel, wrapSalt, p.secret);
    PutTable(net, i, p.uid, t);
  }

  lemma CommitRemoveKeeps(c: Checks, net: Net, i: nat, p: Removal, wrapSalt: Salt)
    requires Inv(net) && i < |net.stores| && (i, p) in net.removals
    requires CommitRemoval(c, net.stores[i], p, wrapSalt).Ok?
    ensures var t := CommitRemoval(c, net.stores[i], p, wrapSalt).value;
      p.uid in t && TableMoves(net.epochs, net.stores[i], t, p.uid) && Inv(WithTable(net, i, p.uid, t))
  {
    StoreBridge(net, i, p.uid);
    var t := CommitRemoval(c, net.stores[i], p, wrapSalt).value;
    if p.RotatePlan? {
      assert RotationOk(net.epochs, net.stores[(i, p).0], (i, p).1);
      assert EpochOk(net.epochs, p.public);
      PartiesAreRoster(net.epochs[p.public], t[p.uid], Some(p.localLabel));
      SealLocalOk(c, t[p.uid], p.members, p.supervisors, Some(p.localLabel), wrapSalt, p.secret);
    }
    PutTable(net, i, p.uid, t);
  }

  lemma FewerOk(e: Epoch, b: Bridge, dropped: set<string>, removed: string)
    requires RosterOk(e, b, dropped) && SealedOk(b)
    ensures var fewer := b.(parties := b.parties - {removed}, sealed := b.sealed - {removed});
      RosterOk(e, fewer, dropped + {removed}) && SealedOk(fewer) && SealedOk(Destroyed(fewer))
  {
    var fewer := b.(parties := b.parties - {removed}, sealed := b.sealed - {removed});
    forall x | x in fewer.sealed ensures SealedRowOk(fewer, x) {
      assert SealedRowOk(b, x);
    }
  }

  /** The dropped bridge is still the epoch's, with one more label dropped. */
  lemma DroppedOk(epochs: map<Public, Epoch>, t: Table, uid: string, removed: string, dropped: set<string>)
    requires uid in t && BridgeOk(epochs, uid, t[uid], dropped) && !t[uid].destroyed
    ensures var after := DropMember(t, uid, removed).value;
      && uid in after && BridgeOk(epochs, uid, after[uid], dropped + {removed}) && TableMoves(epochs, t, after, uid)
  {
    FewerOk(epochs[t[uid].public], t[uid], dropped, removed);
  }

  lemma AfterDrop(c: Checks, net: Net, i: nat, uid: string, removed: string)
    requires i < |net.stores| && DropMember(net.stores[i], uid, removed).Ok?
    ensures After(c, net, Drop(i, uid, removed)) ==
      if net.stores[i][uid].destroyed then net
      else Put(net, i, uid, DropMember(net.stores[i], uid, removed).value, DroppedAt(net, i, uid) + {removed})
  {
  }

  lemma DropKeeps(c: Checks, net: Net, i: nat, uid: string, removed: string)
    requires Inv(net) && i < |net.stores| && DropMember(net.stores[i], uid, removed).Ok?
    ensures TableMoves(net.epochs, net.stores[i], DropMember(net.stores[i], uid, removed).value, uid)
    ensures Inv(After(c, net, Drop(i, uid, removed)))
  {
    var t, dropped := net.stores[i], DroppedAt(net, i, uid);
    StoreBridge(net, i, uid);
    AfterDrop(c, net, i, uid, removed);
    if !t[uid].destroyed {
      DroppedOk(net.epochs, t, uid, removed, dropped);
      PutKeeps(net, i, uid, DropMember(t, uid, removed).value, dropped + {removed});
    }
  }
}
