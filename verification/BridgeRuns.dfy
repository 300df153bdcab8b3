/** What holds over every run of private bridges: stores with the same key agree, keys follow one
another by signed rotations, generations rise and never fall, and members' signatures verify. */
module BridgeRuns {
  import opened Errors
  import opened Strings
  import opened Bridges
  import opened BridgeNet

  // ----- planning keeps the invariant

  ghost predicate DraftFor(t: Terms, kind: Kind, secret: Secret, wraps: string -> Salt, d: Package, l: string) {
    (l in t.members && d == MemberDraft(t, kind, l, secret, wraps)) || (l in t.supervisors && d == SupervisorDraft(t, l))
  }

  lemma MemberDraftAt(t: Terms, kind: Kind, secret: Secret, wraps: string -> Salt, i: nat) returns (l: string)
    requires i < |MemberDrafts(t, kind, secret, wraps)|
    ensures l in t.members && MemberDrafts(t, kind, secret, wraps)[i] == MemberDraft(t, kind, l, secret, wraps)
  {
    l := Sorted(t.members.Keys)[i];
    assert l in Sorted(t.members.Keys);
  }

  lemma SupervisorDraftAt(t: Terms, i: nat) returns (l: string)
    requires i < |SupervisorDrafts(t)|
    ensures l in t.supervisors && SupervisorDrafts(t)[i] == SupervisorDraft(t, l)
  {
    l := Sorted(t.supervisors.Keys)[i];
    assert l in Sorted(t.supervisors.Keys);
  }

  /** Every draft is made for one member or one supervisor. */
  lemma DraftSource(t: Terms, kind: Kind, secret: Secret, wraps: string -> Salt, d: Package) returns (l: string)
    requires d in RosterDrafts(t, kind, secret, wraps)
    ensures DraftFor(t, kind, secret, wraps, d, l)
  {
    if d in MemberDrafts(t, kind, secret, wraps) {
      var i: nat :| i < |MemberDrafts(t, kind, secret, wraps)| && MemberDrafts(t, kind, secret, wraps)[i] == d;
      l := MemberDraftAt(t, kind, secret, wraps, i);
    } else {
      var i: nat :| i < |SupervisorDrafts(t)| && SupervisorDrafts(t)[i] == d;
      l := SupervisorDraftAt(t, i);
    }
  }

  lemma {:induction false} DraftsAre(t: Terms, kind: Kind, secret: Secret, wraps: string -> Salt, d: Package)
    requires d in RosterDrafts(t, kind, secret, wraps)
    ensures d.uid == t.uid && d.generation == t.generation && d.public == t.public && d.salt == t.salt
    ensures d.members == t.members && d.supervisors == t.supervisors && d.auth.None?
    ensures d.kind == kind || d.kind.Supervisor?
    ensures d.secret.Some? ==> d.secret.value.1 == secret
  {
    var l := DraftSource(t, kind, secret, wraps, d);
  }

  lemma {:induction false} NoticesAre(t: Terms, order: seq<string>, parties: map<string, Party>, kept: set<string>, d: Package)
    requires (forall l :: l in order ==> l in parties) && d in DestroyDrafts(t, order, parties, kept)
    ensures d.uid == t.uid && d.generation == t.generation && d.public == t.public && d.salt == t.salt
    ensures d.kind.Destroy? && d.auth.None?
  {
    assert order[0] in order;
    if d !in DestroyDrafts(t, order[1..], parties, kept) {
      assert d == DestroyDraft(t, order[0], parties[order[0]]);
    } else {
      NoticesAre(t, order[1..], parties, kept, d);
    }
  }

  lemma EncodedFrom(c: Checks, drafts: seq<Package>, signer: Option<Secret>, d: Package) returns (draft: Package)
    requires EncodeAll(c, drafts, signer).Ok? && d in EncodeAll(c, drafts, signer).value
    ensures draft in drafts && Encode(c, draft, signer) == Ok(d)
  {
    EncodeAllAt(c, drafts, signer);
    var i :| 0 <= i < |drafts| && EncodeAll(c, drafts, signer).value[i] == d;
    draft := drafts[i];
  }

  lemma Frame(net: Net, p: Public, e: Epoch)
    requires Inv(net) && p !in net.epochs
    ensures var epochs := net.epochs[p := e];
      && (forall d :: d in net.sent ==> PackageOk(epochs, d))
      && (forall q :: q in net.epochs ==> EpochOk(epochs, q))
      && PlansOk(net.(epochs := epochs))
      && forall i :: 0 <= i < |net.stores| ==> StoreOk(net.(epochs := epochs), i)
  {
    var grown := net.(epochs := net.epochs[p := e]);
    forall d | d in net.sent ensures PackageOk(grown.epochs, d) {
      assert PackageOk(net.epochs, d);
    }
    forall q | q in net.epochs ensures EpochOk(grown.epochs, q) {
      assert EpochOk(net.epochs, q);
    }
    forall x | x in net.creations ensures CreationOk(grown.epochs, x.1) {
      assert CreationOk(net.epochs, x.1);
    }
    forall x | x in net.removals && x.1.RotatePlan? ensures RotationOk(grown.epochs, grown.stores[x.0], x.1) {
      assert RotationOk(net.epochs, net.stores[x.0], x.1);
    }
    forall i | 0 <= i < |net.stores| ensures StoreOk(grown, i) {
      assert StoreOk(net, i);
      forall uid | uid in net.stores[i]
        ensures BridgeOk(grown.epochs, uid, grown.stores[i][uid], DroppedAt(grown, i, uid))
      {
        assert BridgeOk(net.epochs, uid, net.stores[i][uid], DroppedAt(net, i, uid));
        assert DroppedAt(grown, i, uid) == DroppedAt(net, i, uid);
      }
    }
  }

  lemma PlanCreateFacts(c: Checks, keyId: Option<int>, title: Option<string>, memberInputs: seq<PartyInput>,
                        supervisorInputs: seq<PartyInput>, localLabel: Option<string>, uid: string, draws: Draws)
    requires PlanCreate(c, keyId, title, memberInputs, supervisorInputs, localLabel, uid, draws).Ok?
    ensures var plan := PlanCreate(c, keyId, title, memberInputs, supervisorInputs, localLabel, uid, draws).value.0;
      && plan.uid == uid && plan.title == title && plan.public == PublicOf(draws.secret) && plan.secret == draws.secret
      && plan.salt == draws.salt
      && plan.members.Keys !! plan.supervisors.Keys
  {
  }

  lemma {:induction false} CreationPackagesOk(c: Checks, epochs: map<Public, Epoch>, plan: Creation, draws: Draws, d: Package)
    requires CreationOk(epochs, plan) && plan.secret == draws.secret
    requires EncodeAll(c, RosterDrafts(CreationTerms(plan), Invite, draws.secret, draws.wraps), None).Ok?
    requires d in EncodeAll(c, RosterDrafts(CreationTerms(plan), Invite, draws.secret, draws.wraps), None).value
    ensures PackageOk(epochs, d)
  {
    var draft := EncodedFrom(c, RosterDrafts(CreationTerms(plan), Invite, draws.secret, draws.wraps), None, d);
    DraftsAre(CreationTerms(plan), Invite, draws.secret, draws.wraps, draft);
  }

  lemma CreationSentOk(c: Checks, epochs: map<Public, Epoch>, s: Step, plan: Creation, packages: seq<Package>)
    requires s.PlanCreation? && CreationOk(epochs, plan)
    requires PlanCreate(c, s.keyId, s.title, s.memberInputs, s.supervisorInputs, s.localLabel, s.uid, s.draws)
          == Ok((plan, packages))
    ensures forall d :: d in packages ==> PackageOk(epochs, d)
  {
    forall d | d in packages ensures PackageOk(epochs, d) {
      CreationPackagesOk(c, epochs, plan, s.draws, d);
    }
  }

  /** The plan and its epoch join what is known, and nothing known before is lost. */
  lemma CreationEpochOk(c: Checks, net: Net, s: Step)
    requires Inv(net) && s.PlanCreation? && Enabled(net, s)
    requires PlanCreate(c, s.keyId, s.title, s.memberInputs, s.supervisorInputs, s.localLabel, s.uid, s.draws).Ok?
    ensures var after := AfterPlanCreation(c, net, s);
      var plan := PlanCreate(c, s.keyId, s.title, s.memberInputs, s.supervisorInputs, s.localLabel, s.uid, s.draws).value.0;
      && EpochsOk(after.epochs) && PlansOk(after) && CreationOk(after.epochs, plan)
      && (forall d :: d in net.sent ==> PackageOk(after.epochs, d))
      && forall i :: 0 <= i < |net.stores| ==> StoreOk(net.(epochs := after.epochs), i)
  {
    var plan := PlanCreate(c, s.keyId, s.title, s.memberInputs, s.supervisorInputs, s.localLabel, s.uid, s.draws).value.0;
    var after := AfterPlanCreation(c, net, s);
    PlanCreateFacts(c, s.keyId, s.title, s.memberInputs, s.supervisorInputs, s.localLabel, s.uid, s.draws);
    Frame(net, plan.public, Epoch(plan.uid, 1, plan.salt, plan.members, plan.supervisors, None));
    assert EpochOk(after.epochs, plan.public);
    assert CreationOk(after.epochs, plan);
  }

  lemma PlanCreationKeeps(c: Checks, net: Net, s: Step)
    requires Inv(net) && s.PlanCreation? && Enabled(net, s)
    ensures Inv(AfterPlanCreation(c, net, s))
  {
    var r := PlanCreate(c, s.keyId, s.title, s.memberInputs, s.supervisorInputs, s.localLabel, s.uid, s.draws);
    if r.Ok? {
      var after := AfterPlanCreation(c, net, s);
      CreationEpochOk(c, net, s);
      CreationSentOk(c, after.epochs, s, r.value.0, r.value.1);
      StoresStay(net, after);
    }
  }

  /** The secret a remover holds is the secret of the stored key. */
  lemma RemoverHoldsKey(epochs: map<Public, Epoch>, t: Table, uid: string, removed: string, localName: string,
                        encryptionSk: Secret, dropped: set<string>)
    requires MayRemove(t, uid, removed, localName, encryptionSk).Ok? && BridgeOk(epochs, uid, t[uid], dropped)
    ensures PublicOf(MayRemove(t, uid, removed, localName, encryptionSk).value) == t[uid].public
  {
    assert SealedRowOk(t[uid], localName);
  }

  lemma {:induction false} NoticeOk(c: Checks, epochs: map<Public, Epoch>, b: Bridge, uid: string, removed: string,
                                    kept: set<string>,
                 secret: Secret, d: Package)
    requires b.public in epochs && SameTerms(epochs[b.public], uid, b.generation, b.salt) && PublicOf(secret) == b.public
    requires var drafts := DestroyDrafts(OldTerms(b, uid, removed), PartyOrder(b.parties), b.parties, kept);
      EncodeAll(c, drafts, Some(secret)).Ok? && d in EncodeAll(c, drafts, Some(secret)).value
    ensures PackageOk(epochs, d)
  {
    var drafts := DestroyDrafts(OldTerms(b, uid, removed), PartyOrder(b.parties), b.parties, kept);
    var draft := EncodedFrom(c, drafts, Some(secret), d);
    NoticesAre(OldTerms(b, uid, removed), PartyOrder(b.parties), b.parties, kept, draft);
    assert UpdateOf(draft) == UpdateOf(d);
  }

  lemma {:induction false} RotatePackageOk(c: Checks, epochs: map<Public, Epoch>, t: Terms, current: Public,
                                           draws: Draws, secret: Secret, d: Package)
    requires t.public in epochs && t.public == PublicOf(draws.secret) && PublicOf(secret) == current
    requires epochs[t.public] == Epoch(t.uid, t.generation, t.salt, t.members, t.supervisors, Some(current))
    requires EncodeAll(c, RosterDrafts(t, Rotate, draws.secret, draws.wraps), Some(secret)).Ok?
    requires d in EncodeAll(c, RosterDrafts(t, Rotate, draws.secret, draws.wraps), Some(secret)).value
    ensures PackageOk(epochs, d)
  {
    var draft := EncodedFrom(c, RosterDrafts(t, Rotate, draws.secret, draws.wraps), Some(secret), d);
    DraftsAre(t, Rotate, draws.secret, draws.wraps, draft);
    assert UpdateOf(draft) == UpdateOf(d);
  }

  ghost predicate PlanFrom(b: Bridge, uid: string, removed: string, draws: Draws, plan: Removal) {
    && plan.uid == uid && plan.expected == b.generation
    && (plan.RotatePlan? ==>
          var next := NewTerms(b, uid, removed, draws);
          && plan.generation == next.generation && plan.public == next.public && plan.salt == next.salt
          && plan.members == next.members && plan.supervisors == next.supervisors && plan.secret == draws.secret)
  }

  lemma PlanMade(c: Checks, b: Bridge, uid: string, removed: string, localName: string, secret: Secret, draws: Draws)
    requires WithoutMember(c, b, uid, removed, localName, secret, draws).Ok?
    ensures PlanFrom(b, uid, removed, draws, WithoutMember(c, b, uid, removed, localName, secret, draws).value.0)
  {
  }

  lemma RemovalFacts(c: Checks, t: Table, uid: string, removed: string, localName: string, encryptionSk: Secret, draws: Draws)
    requires PlanRemoval(c, t, uid, removed, localName, encryptionSk, draws).Ok?
    ensures MayRemove(t, uid, removed, localName, encryptionSk).Ok? && uid in t && !t[uid].destroyed
    ensures PlanFrom(t[uid], uid, removed, draws, PlanRemoval(c, t, uid, removed, localName, encryptionSk, draws).value.0)
  {
    PlanMade(c, t[uid], uid, removed, localName, MayRemove(t, uid, removed, localName, encryptionSk).value, draws);
  }

  lemma RemovalPackage(c: Checks, t: Table, uid: string, removed: string, localName: string, encryptionSk: Secret,
                       draws: Draws, d: Package) returns (notice: bool)
    requires PlanRemoval(c, t, uid, removed, localName, encryptionSk, draws).Ok?
    requires d in PlanRemoval(c, t, uid, removed, localName, encryptionSk, draws).value.1
    ensures MayRemove(t, uid, removed, localName, encryptionSk).Ok?
    ensures var secret := MayRemove(t, uid, removed, localName, encryptionSk).value;
      if notice then
        exists kept ::
          var drafts := DestroyDrafts(OldTerms(t[uid], uid, removed), PartyOrder(t[uid].parties), t[uid].parties, kept);
          EncodeAll(c, drafts, Some(secret)).Ok? && d in EncodeAll(c, drafts, Some(secret)).value
      else
        var drafts := RosterDrafts(NewTerms(t[uid], uid, removed, draws), Rotate, draws.secret, draws.wraps);
        && PlanRemoval(c, t, uid, removed, localName, encryptionSk, draws).value.0.RotatePlan?
        && EncodeAll(c, drafts, Some(secret)).Ok? && d in EncodeAll(c, drafts, Some(secret)).value
  {
    var secret := MayRemove(t, uid, removed, localName, encryptionSk).value;
    var b := t[uid];
    var was := OldTerms(b, uid, removed);
    if |was.members| < 2 {
      var drafts := DestroyDrafts(was, PartyOrder(b.parties), b.parties, {});
      assert EncodeAll(c, drafts, Some(secret)).Ok? && d in EncodeAll(c, drafts, Some(secret)).value;
      notice := true;
    } else {
      var rotate := EncodeAll(c, RosterDrafts(NewTerms(b, uid, removed, draws), Rotate, draws.secret, draws.wraps),
                              Some(secret));
      notice := d !in rotate.value;
      if notice {
        var kept := was.members.Keys + was.supervisors.Keys;
        var drafts := DestroyDrafts(was, PartyOrder(b.parties), b.parties, kept);
        assert EncodeAll(c, drafts, Some(secret)).Ok? && d in EncodeAll(c, drafts, Some(secret)).value;
      }
    }
  }

  lemma NewRosterDisjoint(b: Bridge, uid: string, removed: string)
    ensures OldTerms(b, uid, removed).members.Keys !! OldTerms(b, uid, removed).supervisors.Keys
  {
  }

  lemma GenerationsPositive(epochs: map<Public, Epoch>, p: Public)
    requires EpochsOk(epochs) && p in epochs
    ensures epochs[p].generation >= 1
  {
    assert EpochOk(epochs, p);
  }

  /** A removal planned from a store in order makes envelopes and a plan in order. */
  lemma RemovalSentOk(c: Checks, net: Net, s: Step, d: Package)
    requires Inv(net) && s.PlanRemove? && Enabled(net, s)
    requires PlanRemoval(c, net.stores[s.i], s.uid, s.removed, s.localName, s.encryptionSk, s.draws).Ok?
    requires d in PlanRemoval(c, net.stores[s.i], s.uid, s.removed, s.localName, s.encryptionSk, s.draws).value.1
    ensures PackageOk(AfterPlanRemove(c, net, s).epochs, d)
  {
    var t := net.stores[s.i];
    var epochs := AfterPlanRemove(c, net, s).epochs;
    RemovalFacts(c, t, s.uid, s.removed, s.localName, s.encryptionSk, s.draws);
    StoreBridge(net, s.i, s.uid);
    var b := t[s.uid];
    RemoverHoldsKey(net.epochs, t, s.uid, s.removed, s.localName, s.encryptionSk, DroppedAt(net, s.i, s.uid));
    var secret := MayRemove(t, s.uid, s.removed, s.localName, s.encryptionSk).value;
    assert b.public in epochs && epochs[b.public] == net.epochs[b.public];
    var notice := RemovalPackage(c, t, s.uid, s.removed, s.localName, s.encryptionSk, s.draws, d);
    if notice {
      var kept :| var drafts := DestroyDrafts(OldTerms(b, s.uid, s.removed), PartyOrder(b.parties), b.parties, kept);
        EncodeAll(c, drafts, Some(secret)).Ok? && d in EncodeAll(c, drafts, Some(secret)).value;
      NoticeOk(c, epochs, b, s.uid, s.removed, kept, secret, d);
    } else {
      RotatePackageOk(c, epochs, NewTerms(b, s.uid, s.removed, s.draws), b.public, s.draws, secret, d);
    }
  }

  lemma NoticePlanOk(c: Checks, net: Net, s: Step, plan: Removal)
    requires Inv(net) && s.PlanRemove? && Enabled(net, s) && plan.DestroyPlan?
    requires PlanRemoval(c, net.stores[s.i], s.uid, s.removed, s.localName, s.encryptionSk, s.draws).Ok?
    requires plan == PlanRemoval(c, net.stores[s.i], s.uid, s.removed, s.localName, s.encryptionSk, s.draws).value.0
    ensures AfterPlanRemove(c, net, s).epochs == net.epochs && PlansOk(AfterPlanRemove(c, net, s))
  {
    var after := AfterPlanRemove(c, net, s);
    assert after.removals == net.removals + {(s.i, plan)};
  }

  lemma PlanRemoveKeeps(c: Checks, net: Net, s: Step)
    requires Inv(net) && s.PlanRemove? && Enabled(net, s)
    ensures Inv(AfterPlanRemove(c, net, s))
  {
    var r := PlanRemoval(c, net.stores[s.i], s.uid, s.removed, s.localName, s.encryptionSk, s.draws);
    if r.Ok? {
      var after := AfterPlanRemove(c, net, s);
      if r.value.0.RotatePlan? {
        NewEpochOk(c, net, s, r.value.0);
      } else {
        NoticePlanOk(c, net, s, r.value.0);
        assert net.(epochs := after.epochs) == net;
      }
      forall d | d in after.sent ensures PackageOk(after.epochs, d) {
        if d in r.value.1 {
          RemovalSentOk(c, net, s, d);
        }
      }
      StoresStay(net, after);
    }
  }

  lemma StoresStay(net: Net, after: Net)
    requires after.stores == net.stores && after.dropped == net.dropped
    requires forall i :: 0 <= i < |net.stores| ==> StoreOk(net.(epochs := after.epochs), i)
    ensures forall i :: 0 <= i < |after.stores| ==> StoreOk(after, i)
  {
    forall i | 0 <= i < |after.stores| ensures StoreOk(after, i) {
      assert StoreOk(net.(epochs := after.epochs), i);
      assert forall uid :: DroppedAt(after, i, uid) == DroppedAt(net.(epochs := after.epochs), i, uid);
    }
  }

  /** A plan that is in order joins the plans made so far. */
  lemma OneMoreRemoval(net: Net, after: Net, i: nat, plan: Removal)
    requires PlansOk(net) && after.stores == net.stores && after.epochs == net.epochs && after.creations == net.creations
    requires after.removals == net.removals + {(i, plan)}
    requires plan.RotatePlan? ==> i < |net.stores| && RotationOk(net.epochs, net.stores[i], plan)
    ensures PlansOk(after)
  {
    forall x | x in after.removals && x.1.RotatePlan?
      ensures x.0 < |after.stores| && RotationOk(after.epochs, after.stores[x.0], x.1)
    {
      assert x in net.removals || x == (i, plan);
    }
    forall x | x in after.creations ensures CreationOk(after.epochs, x.1) {
      assert x in net.creations;
    }
  }

  /** The rotation's epoch is in order, and everything known before stays so. */
  lemma RotationEpochOk(c: Checks, net: Net, s: Step, plan: Removal)
    requires Inv(net) && s.PlanRemove? && Enabled(net, s) && plan.RotatePlan?
    requires PlanRemoval(c, net.stores[s.i], s.uid, s.removed, s.localName, s.encryptionSk, s.draws).Ok?
    requires plan == PlanRemoval(c, net.stores[s.i], s.uid, s.removed, s.localName, s.encryptionSk, s.draws).value.0
    ensures var epochs := AfterPlanRemove(c, net, s).epochs;
      && EpochsOk(epochs) && RotationOk(epochs, net.stores[s.i], plan) && PlansOk(net.(epochs := epochs))
      && (forall d :: d in net.sent ==> PackageOk(epochs, d))
      && forall i :: 0 <= i < |net.stores| ==> StoreOk(net.(epochs := epochs), i)
  {
    var t := net.stores[s.i];
    var after := AfterPlanRemove(c, net, s);
    RemovalFacts(c, t, s.uid, s.removed, s.localName, s.encryptionSk, s.draws);
    StoreBridge(net, s.i, s.uid);
    var b := t[s.uid];
    var e := Epoch(plan.uid, plan.generation, plan.salt, plan.members, plan.supervisors, Some(b.public));
    Frame(net, plan.public, e);
    NewRosterDisjoint(b, s.uid, s.removed);
    GenerationsPositive(net.epochs, b.public);
    assert EpochOk(after.epochs, plan.public);
    assert RotationOk(after.epochs, t, plan);
  }

  lemma NewEpochOk(c: Checks, net: Net, s: Step, plan: Removal)
    requires Inv(net) && s.PlanRemove? && Enabled(net, s) && plan.RotatePlan?
    requires PlanRemoval(c, net.stores[s.i], s.uid, s.removed, s.localName, s.encryptionSk, s.draws).Ok?
    requires plan == PlanRemoval(c, net.stores[s.i], s.uid, s.removed, s.localName, s.encryptionSk, s.draws).value.0
    ensures var after := AfterPlanRemove(c, net, s);
      && EpochsOk(after.epochs) && PlansOk(after)
      && (forall d :: d in net.sent ==> PackageOk(after.epochs, d))
      && forall i :: 0 <= i < |net.stores| ==> StoreOk(net.(epochs := after.epochs), i)
  {
    var after := AfterPlanRemove(c, net, s);
    RotationEpochOk(c, net, s, plan);
    OneMoreRemoval(net.(epochs := after.epochs), after, s.i, plan);
  }

  // ----- every step, every run

  /** Every step keeps the invariant. */
  lemma StepKeeps(c: Checks, net: Net, s: Step)
    requires Inv(net) && Enabled(net, s)
    ensures Inv(After(c, net, s))
  {
    match s {
      case PlanCreation(_, _, _, _, _, _, _, _) => PlanCreationKeeps(c, net, s);
      case CommitNew(i, creation, wrapSalt) =>
        if CommitCreation(c, net.stores[i], creation, wrapSalt).Ok? {
          CommitNewKeeps(c, net, i, creation, wrapSalt);
        }
      case ImportSent(i, package, encryptionSk) =>
        if Import(c, net.stores[i], package, encryptionSk).Ok? {
          ImportKeeps(c, net, i, package, encryptionSk);
        }
      case PlanRemove(_, _, _, _, _, _) => PlanRemoveKeeps(c, net, s);
      case CommitRemove(i, removal, wrapSalt) =>
        if CommitRemoval(c, net.stores[i], removal, wrapSalt).Ok? {
          CommitRemoveKeeps(c, net, i, removal, wrapSalt);
        }
      case Drop(i, uid, removed) =>
        if DropMember(net.stores[i], uid, removed).Ok? {
          DropKeeps(c, net, i, uid, removed);
        }
    }
  }

  ghost predicate IsRun(c: Checks, net: Net, steps: seq<Step>)
    decreases steps
  {
    steps == [] || (Enabled(net, steps[0]) && IsRun(c, After(c, net, steps[0]), steps[1..]))
  }

  ghost function AfterRun(c: Checks, net: Net, steps: seq<Step>): Net
    requires IsRun(c, net, steps)
    decreases steps
  {
    if steps == [] then net else AfterRun(c, After(c, net, steps[0]), steps[1..])
  }

  lemma {:induction false} RunKeeps(c: Checks, net: Net, steps: seq<Step>)
    requires Inv(net) && IsRun(c, net, steps)
    ensures Inv(AfterRun(c, net, steps))
    decreases steps
  {
    if steps != [] {
      StepKeeps(c, net, steps[0]);
      RunKeeps(c, After(c, net, steps[0]), steps[1..]);
    }
  }

  lemma StartInv(n: nat)
    ensures Inv(Start(n))
  {
  }

  /** Every state any run reaches is in order. */
  lemma {:induction false} ReachableInv(c: Checks, n: nat, steps: seq<Step>)
    requires IsRun(c, Start(n), steps)
    ensures Inv(AfterRun(c, Start(n), steps))
  {
    StartInv(n);
    RunKeeps(c, Start(n), steps);
  }

  /** In every reachable store a bridge has at most one sealed secret, none once destroyed, and it is the
  secret of the stored public key, sealed to the local member's encryption key. */
  lemma {:induction false} ReachableSealed(c: Checks, n: nat, steps: seq<Step>, i: nat, uid: string)
    requires IsRun(c, Start(n), steps)
    requires i < |AfterRun(c, Start(n), steps).stores| && uid in AfterRun(c, Start(n), steps).stores[i]
    ensures SealedOk(AfterRun(c, Start(n), steps).stores[i][uid])
  {
    ReachableInv(c, n, steps);
    StoreBridge(AfterRun(c, Start(n), steps), i, uid);
  }

  // ----- history is monotone

  /** No epoch is forgotten or changed. */
  ghost predicate EpochsGrow(before: map<Public, Epoch>, after: map<Public, Epoch>) {
    forall p :: p in before ==> p in after && after[p] == before[p]
  }

  /** An operation on one uid at one store moves or leaves every stored bridge. */
  lemma StoreMoves(net: Net, i: nat, x: string, t: Table, j: nat, uid: string)
    requires i < |net.stores| && j < |net.stores| && uid in net.stores[j]
    requires TableMoves(net.epochs, net.stores[i], t, x)
    ensures uid in net.stores[i := t][j] && Moves(net.epochs, net.stores[j][uid], net.stores[i := t][j][uid])
  {
  }

  /** What a step does to the bridges a store already has: each stays, or moves along one signed rotation. */
  lemma StepMoves(c: Checks, net: Net, s: Step, j: nat, uid: string)
    requires Inv(net) && Enabled(net, s) && j < |net.stores| && uid in net.stores[j]
    ensures EpochsGrow(net.epochs, After(c, net, s).epochs) && |After(c, net, s).stores| == |net.stores|
    ensures uid in After(c, net, s).stores[j]
    ensures Moves(net.epochs, net.stores[j][uid], After(c, net, s).stores[j][uid])
  {
    match s {
      case PlanCreation(_, _, _, _, _, _, _, _) =>
        if PlanCreate(c, s.keyId, s.title, s.memberInputs, s.supervisorInputs, s.localLabel, s.uid, s.draws).Ok? {
          PlanCreateFacts(c, s.keyId, s.title, s.memberInputs, s.supervisorInputs, s.localLabel, s.uid, s.draws);
        }
      case CommitNew(i, creation, wrapSalt) =>
        if CommitCreation(c, net.stores[i], creation, wrapSalt).Ok? {
          CommitNewKeeps(c, net, i, creation, wrapSalt);
          StoreMoves(net, i, creation.uid, CommitCreation(c, net.stores[i], creation, wrapSalt).value, j, uid);
        }
      case ImportSent(i, package, encryptionSk) =>
        if Import(c, net.stores[i], package, encryptionSk).Ok? {
          ImportKeeps(c, net, i, package, encryptionSk);
          StoreMoves(net, i, package.uid, Import(c, net.stores[i], package, encryptionSk).value, j, uid);
        }
      case PlanRemove(_, _, _, _, _, _) =>
        if PlanRemoval(c, net.stores[s.i], s.uid, s.removed, s.localName, s.encryptionSk, s.draws).Ok? {
          RemovalFacts(c, net.stores[s.i], s.uid, s.removed, s.localName, s.encryptionSk, s.draws);
        }
      case CommitRemove(i, removal, wrapSalt) =>
        if CommitRemoval(c, net.stores[i], removal, wrapSalt).Ok? {
          CommitRemoveKeeps(c, net, i, removal, wrapSalt);
          StoreMoves(net, i, removal.uid, CommitRemoval(c, net.stores[i], removal, wrapSalt).value, j, uid);
        }
      case Drop(i, x, removed) =>
        if DropMember(net.stores[i], x, removed).Ok? {
          DropKeeps(c, net, i, x, removed);
          StoreMoves(net, i, x, DropMember(net.stores[i], x, removed).value, j, uid);
        }
    }
  }

  /** Over every run a store's bridge stays, its generation never falls, the same generation means the
  same key, and once destroyed it never changes again. */
  lemma {:induction false} HistoryIsMonotone(c: Checks, net: Net, steps: seq<Step>, j: nat, uid: string)
    requires Inv(net) && IsRun(c, net, steps) && j < |net.stores| && uid in net.stores[j]
    ensures var after := AfterRun(c, net, steps);
      && |after.stores| == |net.stores| && uid in after.stores[j]
      && after.stores[j][uid].generation >= net.stores[j][uid].generation
      && (after.stores[j][uid].generation == net.stores[j][uid].generation ==>
            after.stores[j][uid].public == net.stores[j][uid].public)
      && (net.stores[j][uid].destroyed ==> after.stores[j][uid] == net.stores[j][uid])
    decreases steps
  {
    if steps != [] {
      StepMoves(c, net, steps[0], j, uid);
      StepKeeps(c, net, steps[0]);
      HistoryIsMonotone(c, After(c, net, steps[0]), steps[1..], j, uid);
    }
  }

  // ----- agreement

  /** Two roster rows that say the same, wherever they are local. */
  predicate SameParty(p: Party, q: Party) {
    p.encryption == q.encryption && p.MemberParty? == q.MemberParty? && (p.MemberParty? ==> p.signing == q.signing)
  }

  /** Stores that hold the same bridge key hold the same uid, generation and salt, and the same
  roster but for the labels their coordinators dropped. */
  lemma SameKeyAgrees(net: Net, i: nat, j: nat, u: string, v: string)
    requires Inv(net) && i < |net.stores| && j < |net.stores| && u in net.stores[i] && v in net.stores[j]
    requires net.stores[i][u].public == net.stores[j][v].public
    ensures u == v && net.stores[i][u].generation == net.stores[j][v].generation
    ensures net.stores[i][u].salt == net.stores[j][v].salt
    ensures forall x :: x !in DroppedAt(net, i, u) && x !in DroppedAt(net, j, v) ==>
      (x in net.stores[i][u].parties <==> x in net.stores[j][v].parties)
    ensures forall x :: x in net.stores[i][u].parties && x in net.stores[j][v].parties ==>
      SameParty(net.stores[i][u].parties[x], net.stores[j][v].parties[x])
  {
    StoreBridge(net, i, u);
    StoreBridge(net, j, v);
    var e := net.epochs[net.stores[i][u].public];
    forall x | x in net.stores[i][u].parties && x in net.stores[j][v].parties
      ensures SameParty(net.stores[i][u].parties[x], net.stores[j][v].parties[x])
    {
      assert PartyOk(e, x, net.stores[i][u].parties[x]) && PartyOk(e, x, net.stores[j][v].parties[x]);
    }
  }

  /** No two keys were drawn for the same generation of a uid. */
  ghost predicate OneRotationEach(epochs: map<Public, Epoch>) {
    forall p, q :: p in epochs && q in epochs && SameGeneration(epochs[p], epochs[q]) ==> p == q
  }

  predicate SameGeneration(a: Epoch, b: Epoch) {
    a.uid == b.uid && a.generation == b.generation
  }

  /** With at most one rotation per generation, stores at the same generation of a bridge agree. */
  lemma SameGenerationAgrees(net: Net, i: nat, j: nat, uid: string)
    requires Inv(net) && OneRotationEach(net.epochs) && i < |net.stores| && j < |net.stores|
    requires uid in net.stores[i] && uid in net.stores[j]
    requires net.stores[i][uid].generation == net.stores[j][uid].generation
    ensures net.stores[i][uid].public == net.stores[j][uid].public && net.stores[i][uid].salt == net.stores[j][uid].salt
    ensures forall x :: x !in DroppedAt(net, i, uid) && x !in DroppedAt(net, j, uid) ==>
      (x in net.stores[i][uid].parties <==> x in net.stores[j][uid].parties)
    ensures forall x :: x in net.stores[i][uid].parties && x in net.stores[j][uid].parties ==>
      SameParty(net.stores[i][uid].parties[x], net.stores[j][uid].parties[x])
  {
    StoreBridge(net, i, uid);
    StoreBridge(net, j, uid);
    assert SameGeneration(net.epochs[net.stores[i][uid].public], net.epochs[net.stores[j][uid].public]);
    SameKeyAgrees(net, i, j, uid, uid);
  }

  // ----- keys follow one another

  /** A key and the keys it was rotated from, newest first, down to the first generation. */
  ghost predicate Chain(epochs: map<Public, Epoch>, uid: string, keys: seq<Public>) {
    && keys != []
    && (forall k :: 0 <= k < |keys| ==> Drawn(epochs, uid, keys[k], |keys| - k))
    && (forall k :: 0 <= k < |keys| - 1 ==> epochs[keys[k]].parent == Some(keys[k + 1]))
    && epochs[keys[|keys| - 1]].parent.None?
  }

  /** The key was drawn for this generation of the uid. */
  predicate Drawn(epochs: map<Public, Epoch>, uid: string, p: Public, generation: int) {
    p in epochs && epochs[p].uid == uid && epochs[p].generation == generation
  }

  /** A key drawn from the head of a chain extends it. */
  lemma ChainCons(epochs: map<Public, Epoch>, p: Public, q: Public, rest: seq<Public>)
    requires p in epochs && EpochOk(epochs, p) && epochs[p].parent == Some(q) && q in epochs
    requires Chain(epochs, epochs[q].uid, rest) && rest[0] == q
    ensures Chain(epochs, epochs[p].uid, [p] + rest)
  {
    var keys := [p] + rest;
    assert forall k :: 0 < k < |keys| ==> keys[k] == rest[k - 1];
    assert Drawn(epochs, epochs[q].uid, rest[0], |rest| - 0);
  }

  lemma {:induction false} ChainDown(epochs: map<Public, Epoch>, p: Public) returns (keys: seq<Public>)
    requires EpochsOk(epochs) && p in epochs
    ensures Chain(epochs, epochs[p].uid, keys) && keys[0] == p
    decreases epochs[p].generation
  {
    assert EpochOk(epochs, p);
    match epochs[p].parent {
      case None => keys := [p];
      case Some(q) =>
        var rest := ChainDown(epochs, q);
        keys := [p] + rest;
        ChainCons(epochs, p, q, rest);
    }
  }

  /** The key a store holds goes back, rotation by rotation, to the one first key of the bridge, and
  each envelope that brought one of these keys was signed under the key before it. */
  lemma KeysFollowSigned(net: Net, i: nat, uid: string) returns (keys: seq<Public>)
    requires Inv(net) && i < |net.stores| && uid in net.stores[i]
    ensures Chain(net.epochs, uid, keys) && keys[0] == net.stores[i][uid].public && |keys| == net.stores[i][uid].generation
    ensures forall k, d :: 0 <= k < |keys| - 1 && d in net.sent && !d.kind.Destroy? && d.public == keys[k] ==>
      d.auth == Some(Signature(keys[k + 1], OfUpdate(UpdateOf(d))))
    ensures forall p :: p in net.epochs && net.epochs[p].uid == uid && net.epochs[p].generation == 1 ==>
      p == keys[|keys| - 1]
  {
    StoreBridge(net, i, uid);
    keys := ChainDown(net.epochs, net.stores[i][uid].public);
    assert Drawn(net.epochs, uid, keys[0], |keys|);
    forall k, d | 0 <= k < |keys| - 1 && d in net.sent && !d.kind.Destroy? && d.public == keys[k]
      ensures d.auth == Some(Signature(keys[k + 1], OfUpdate(UpdateOf(d))))
    {
      assert PackageOk(net.epochs, d);
    }
    forall p | p in net.epochs && net.epochs[p].uid == uid && net.epochs[p].generation == 1
      ensures p == keys[|keys| - 1]
    {
      assert Drawn(net.epochs, uid, keys[|keys| - 1], 1);
      assert First(net.epochs[p], net.epochs[keys[|keys| - 1]]);
    }
  }

  // ----- importing again, stale plans, destroy notices

  lemma AfterImport(c: Checks, net: Net, i: nat, d: Package, sk: Secret)
    requires i < |net.stores| && Import(c, net.stores[i], d, sk).Ok?
    ensures var after := After(c, net, ImportSent(i, d, sk));
      && |after.stores| == |net.stores| && after.stores[i] == Import(c, net.stores[i], d, sk).value
  {
  }

  /** What an accepted package leaves behind: its bridge, at its generation or destroyed. */
  lemma Imported(c: Checks, t: Table, d: Package, sk: Secret)
    requires Import(c, t, d, sk).Ok?
    ensures var after := Import(c, t, d, sk).value;
      && d.uid in after && if d.kind.Destroy? then after[d.uid].destroyed else after[d.uid].generation == d.generation
  {
  }

  /** A store that has accepted a package never gains anything from it again: whatever any store does in
  between, a later import changes nothing, and fails unless the package is a destroy notice. */
  lemma {:induction false} ImportTwice(c: Checks, net: Net, i: nat, d: Package, sk: Secret, steps: seq<Step>, again: Secret)
    requires Inv(net) && i < |net.stores| && d in net.sent && Import(c, net.stores[i], d, sk).Ok?
    requires IsRun(c, After(c, net, ImportSent(i, d, sk)), steps)
    ensures i < |AfterRun(c, After(c, net, ImportSent(i, d, sk)), steps).stores|
    ensures var t := AfterRun(c, After(c, net, ImportSent(i, d, sk)), steps).stores[i];
      Import(c, t, d, again).Err? || (d.kind.Destroy? && Import(c, t, d, again).value == t)
  {
    var first := After(c, net, ImportSent(i, d, sk));
    AfterImport(c, net, i, d, sk);
    Imported(c, net.stores[i], d, sk);
    StepKeeps(c, net, ImportSent(i, d, sk));
    HistoryIsMonotone(c, first, steps, i, d.uid);
    ImportAgain(c, AfterRun(c, first, steps).stores[i], d, again);
  }

  /** An envelope whose effect a store already shows does nothing there, or fails. */
  lemma ImportAgain(c: Checks, t: Table, d: Package, again: Secret)
    requires d.uid in t && if d.kind.Destroy? then t[d.uid].destroyed else t[d.uid].generation >= d.generation
    ensures Import(c, t, d, again).Err? || (d.kind.Destroy? && Import(c, t, d, again).value == t)
  {
  }

  lemma AfterCommit(c: Checks, net: Net, i: nat, p: Removal, wrapSalt: Salt)
    requires i < |net.stores| && CommitRemoval(c, net.stores[i], p, wrapSalt).Ok?
    ensures var after := After(c, net, CommitRemove(i, p, wrapSalt));
      && |after.stores| == |net.stores| && after.stores[i] == CommitRemoval(c, net.stores[i], p, wrapSalt).value
  {
  }

  /** A plan commits only at a live bridge still at the generation it was made for, and only once: whatever
  any store does afterwards, committing it again fails. */
  lemma {:induction false} StalePlansFail(c: Checks, net: Net, i: nat, p: Removal, wrapSalt: Salt, steps: seq<Step>,
                                          again: Salt)
    requires Inv(net) && i < |net.stores| && (i, p) in net.removals && CommitRemoval(c, net.stores[i], p, wrapSalt).Ok?
    requires IsRun(c, After(c, net, CommitRemove(i, p, wrapSalt)), steps)
    ensures var t := net.stores[i]; p.uid in t && t[p.uid].generation == p.expected && !t[p.uid].destroyed
    ensures i < |AfterRun(c, After(c, net, CommitRemove(i, p, wrapSalt)), steps).stores|
    ensures CommitRemoval(c, AfterRun(c, After(c, net, CommitRemove(i, p, wrapSalt)), steps).stores[i], p, again)
         == Err(BridgeGenerationMismatch)
  {
    assert p.RotatePlan? ==> RotationOk(net.epochs, net.stores[i], p);
    AfterCommit(c, net, i, p, wrapSalt);
    StepKeeps(c, net, CommitRemove(i, p, wrapSalt));
    OvertakenPlansFail(c, After(c, net, CommitRemove(i, p, wrapSalt)), steps, i, p, again);
  }

  /** A plan whose bridge has rotated or been destroyed since can never be committed. */
  lemma {:induction false} OvertakenPlansFail(c: Checks, net: Net, steps: seq<Step>, i: nat, p: Removal, wrapSalt: Salt)
    requires Inv(net) && IsRun(c, net, steps) && i < |net.stores| && p.uid in net.stores[i]
    requires net.stores[i][p.uid].generation > p.expected || net.stores[i][p.uid].destroyed
    ensures |AfterRun(c, net, steps).stores| == |net.stores|
    ensures CommitRemoval(c, AfterRun(c, net, steps).stores[i], p, wrapSalt) == Err(BridgeGenerationMismatch)
  {
    HistoryIsMonotone(c, net, steps, i, p.uid);
  }

  /** A sent destroy notice takes effect only where the key it was signed under is still held. */
  lemma DestroyNeedsKey(c: Checks, net: Net, i: nat, d: Package, sk: Secret)
    requires Inv(net) && i < |net.stores| && d in net.sent && d.kind.Destroy?
    requires Import(c, net.stores[i], d, sk).Ok? && Import(c, net.stores[i], d, sk).value != net.stores[i]
    ensures d.uid in net.stores[i] && net.stores[i][d.uid].public == d.public && !net.stores[i][d.uid].destroyed
    ensures Import(c, net.stores[i], d, sk).value == net.stores[i][d.uid := Destroyed(net.stores[i][d.uid])]
  {
    assert PackageOk(net.epochs, d);
  }

  // ----- signing and verifying

  /** An artifact made with the bridge's and the signer's keys, for the bridge's own generation and salt, verifies. */
  lemma ArtifactVerifies(c: Checks, t: Table, registry: Registry, uid: string, signer: string, verifier: string,
                         bridgeSk: Secret, signingSk: Secret, signatureSalt: Salt, message: string)
    requires uid in t && !t[uid].destroyed && IsMember(t[uid], signer) && IsMember(t[uid], verifier)
    requires PublicOf(bridgeSk) == t[uid].public && PublicOf(signingSk) == t[uid].parties[signer].signing
    requires RegistryAgrees(c, registry, signer, t[uid].parties[signer].signing).Ok?
    ensures var a := SignWithBridge(uid, t[uid].generation, t[uid].salt, signer, bridgeSk, signingSk, signatureSalt, message);
      VerifyMessage(c, t, registry, uid, verifier, message, a) == Ok(())
  {
  }

  /** What one member signs another member accepts: at any store with the same key, if signer and
  verifier are members there and its own registry does not contradict the roster. */
  lemma SignedIsAccepted(c: Checks, net: Net, i: nat, j: nat, uid: string, signer: string, verifier: string,
                         registryI: Registry, registryJ: Registry, encryptionSk: Secret, signingSk: Secret,
                         signatureSalt: Salt, message: string)
    requires Inv(net) && i < |net.stores| && j < |net.stores| && uid in net.stores[i] && uid in net.stores[j]
    requires SignMessage(c, net.stores[i], registryI, uid, signer, encryptionSk, signingSk, signatureSalt, message).Ok?
    requires net.stores[j][uid].public == net.stores[i][uid].public && !net.stores[j][uid].destroyed
    requires IsMember(net.stores[j][uid], signer) && IsMember(net.stores[j][uid], verifier)
    requires RegistryAgrees(c, registryJ, signer, net.stores[j][uid].parties[signer].signing).Ok?
    ensures var a := SignMessage(c, net.stores[i], registryI, uid, signer, encryptionSk, signingSk, signatureSalt,
                                 message).value;
      VerifyMessage(c, net.stores[j], registryJ, uid, verifier, message, a) == Ok(())
  {
    SameKeyAgrees(net, i, j, uid, uid);
    StoreBridge(net, i, uid);
    assert SealedRowOk(net.stores[i][uid], signer);
    assert SameParty(net.stores[i][uid].parties[signer], net.stores[j][uid].parties[signer]);
    var b := net.stores[i][uid];
    var bridgeSk := UnsealLocal(b, signer, encryptionSk).value;
    assert PublicOf(bridgeSk) == b.public;
    ArtifactVerifies(c, net.stores[j], registryJ, uid, signer, verifier, bridgeSk, signingSk, signatureSalt, message);
  }

  /** A member that holds the sealed secret of a live bridge can sign with it. */
  lemma HolderSigns(c: Checks, net: Net, i: nat, uid: string, signer: string, registry: Registry,
                    encryptionSk: Secret, signingSk: Secret, signatureSalt: Salt, message: string)
    requires Inv(net) && i < |net.stores| && uid in net.stores[i] && !net.stores[i][uid].destroyed
    requires signer in net.stores[i][uid].sealed
    requires net.stores[i][uid].sealed[signer].box.to == PublicOf(encryptionSk)
    requires IsMember(net.stores[i][uid], signer) ==>
      net.stores[i][uid].parties[signer].signing == PublicOf(signingSk)
    requires RegistryAgrees(c, registry, signer, PublicOf(signingSk)).Ok?
    ensures SignMessage(c, net.stores[i], registry, uid, signer, encryptionSk, signingSk, signatureSalt, message).Ok?
  {
    StoreBridge(net, i, uid);
    assert SealedRowOk(net.stores[i][uid], signer);
  }
}
