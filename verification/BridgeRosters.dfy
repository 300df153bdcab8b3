/** Who is on a bridge's roster and who is told of a removal. */
module BridgeRosters {
  import opened Errors
  import opened Lists
  import opened Strings
  import opened Bridges
  import opened BridgeNet
  import opened BridgeRuns

  // ----- a removal addresses everyone once

  function Labels(ps: seq<Package>): seq<string> {
    seq(|ps|, i requires 0 <= i < |ps| => ps[i].recipientLabel)
  }

  lemma {:induction false} EncodeKeepsLabels(c: Checks, drafts: seq<Package>, signer: Option<Secret>)
    requires EncodeAll(c, drafts, signer).Ok?
    ensures Labels(EncodeAll(c, drafts, signer).value) == Labels(drafts)
  {
    EncodeAllAt(c, drafts, signer);
  }

  lemma MemberLabels(t: Terms, kind: Kind, secret: Secret, wraps: string -> Salt)
    ensures Labels(MemberDrafts(t, kind, secret, wraps)) == Sorted(t.members.Keys)
  {
    var drafts, ms := MemberDrafts(t, kind, secret, wraps), Sorted(t.members.Keys);
    forall i | 0 <= i < |drafts| ensures drafts[i].recipientLabel == ms[i] {
      assert ms[i] in ms;
    }
  }

  lemma SupervisorLabels(t: Terms)
    ensures Labels(SupervisorDrafts(t)) == Sorted(t.supervisors.Keys)
  {
    var drafts, ss := SupervisorDrafts(t), Sorted(t.supervisors.Keys);
    forall i | 0 <= i < |drafts| ensures drafts[i].recipientLabel == ss[i] {
      assert ss[i] in ss;
    }
  }

  lemma RosterLabels(t: Terms, kind: Kind, secret: Secret, wraps: string -> Salt)
    ensures Labels(RosterDrafts(t, kind, secret, wraps)) == Sorted(t.members.Keys) + Sorted(t.supervisors.Keys)
  {
    MemberLabels(t, kind, secret, wraps);
    SupervisorLabels(t);
    LabelsAppend(MemberDrafts(t, kind, secret, wraps), SupervisorDrafts(t));
  }

  function NotIn(kept: set<string>): string -> bool {
    (l: string) => l !in kept
  }

  lemma {:induction false} NoticeLabels(t: Terms, order: seq<string>, parties: map<string, Party>, kept: set<string>)
    requires forall l :: l in order ==> l in parties
    ensures Labels(DestroyDrafts(t, order, parties, kept)) == Keep(order, NotIn(kept))
  {
    if order != [] {
      var first, rest := order[0], order[1..];
      assert first in order;
      NoticeLabels(t, rest, parties, kept);
      var notices := DestroyDrafts(t, rest, parties, kept);
      if first !in kept {
        LabelsAppend([DestroyDraft(t, first, parties[first])], notices);
      } else {
        assert DestroyDrafts(t, order, parties, kept) == notices;
      }
    }
  }

  lemma AscendingDistinct(q: seq<string>)
    requires Ascending(q)
    ensures Distinct(q)
  {
    forall i, j | 0 <= i < j < |q| ensures q[i] != q[j] {
      LessTotal(q[i], q[j]);
    }
  }

  lemma ListingOf(q: seq<string>, s: set<string>)
    requires Distinct(q) && forall x :: x in q <==> x in s
    ensures multiset(q) == multiset(s)
  {
    forall x ensures multiset(q)[x] == multiset(s)[x] {
      CountDistinct(q, x);
    }
  }

  lemma {:induction false} SortedListing(s: set<string>)
    ensures multiset(Sorted(s)) == multiset(s)
  {
    AscendingDistinct(Sorted(s));
    ListingOf(Sorted(s), s);
  }

  lemma PartyOrderDistinct(parties: map<string, Party>)
    ensures Distinct(PartyOrder(parties))
  {
    var ms := set l | l in parties && parties[l].MemberParty?;
    var ss := set l | l in parties && parties[l].SupervisorParty?;
    AscendingDistinct(Sorted(ms));
    AscendingDistinct(Sorted(ss));
    DistinctAppend(Sorted(ms), Sorted(ss));
  }

  lemma {:induction false} NoticesCover(t: Terms, parties: map<string, Party>, kept: set<string>)
    ensures multiset(Labels(DestroyDrafts(t, PartyOrder(parties), parties, kept))) == multiset(parties.Keys - kept)
  {
    NoticeLabels(t, PartyOrder(parties), parties, kept);
    PartyOrderDistinct(parties);
    KeepDistinct(PartyOrder(parties), NotIn(kept));
    KeepMembers(PartyOrder(parties), NotIn(kept));
    ListingOf(Keep(PartyOrder(parties), NotIn(kept)), parties.Keys - kept);
  }

  lemma LabelsAppend(a: seq<Package>, b: seq<Package>)
    ensures Labels(a + b) == Labels(a) + Labels(b)
  {
  }

  /** The packages of a creation carry every label of the roster exactly once. */
  lemma CreationAddressesEveryone(c: Checks, keyId: Option<int>, title: Option<string>, memberInputs: seq<PartyInput>,
                                  supervisorInputs: seq<PartyInput>, localLabel: Option<string>, uid: string, d: Draws)
    requires PlanCreate(c, keyId, title, memberInputs, supervisorInputs, localLabel, uid, d).Ok?
    ensures var (plan, packages) := PlanCreate(c, keyId, title, memberInputs, supervisorInputs, localLabel, uid, d).value;
      multiset(Labels(packages)) == multiset(plan.members.Keys + plan.supervisors.Keys)
  {
    PlanCreateFacts(c, keyId, title, memberInputs, supervisorInputs, localLabel, uid, d);
    var plan := PlanCreate(c, keyId, title, memberInputs, supervisorInputs, localLabel, uid, d).value.0;
    var drafts := RosterDrafts(CreationTerms(plan), Invite, d.secret, d.wraps);
    EncodeKeepsLabels(c, drafts, None);
    RosterLabels(CreationTerms(plan), Invite, d.secret, d.wraps);
    SortedListing(plan.members.Keys);
    SortedListing(plan.supervisors.Keys);
    BothListed(plan.members.Keys, plan.supervisors.Keys);
  }

  lemma BothListed(a: set<string>, b: set<string>)
    requires a !! b
    ensures multiset(a) + multiset(b) == multiset(a + b)
  {
  }

  /** The packages of a removal carry every label of the old roster exactly once. */
  lemma RemovalAddressesEveryone(c: Checks, t: Table, uid: string, removed: string, localName: string,
                                 encryptionSk: Secret, d: Draws)
    requires PlanRemoval(c, t, uid, removed, localName, encryptionSk, d).Ok?
    ensures uid in t
    ensures multiset(Labels(PlanRemoval(c, t, uid, removed, localName, encryptionSk, d).value.1))
         == multiset(t[uid].parties.Keys)
  {
    RemovalFacts(c, t, uid, removed, localName, encryptionSk, d);
    var secret := MayRemove(t, uid, removed, localName, encryptionSk).value;
    var b := t[uid];
    var was := OldTerms(b, uid, removed);
    if |was.members| < 2 {
      EncodeKeepsLabels(c, DestroyDrafts(was, PartyOrder(b.parties), b.parties, {}), Some(secret));
      NoticesCover(was, b.parties, {});
      assert b.parties.Keys - {} == b.parties.Keys;
    } else {
      var kept := was.members.Keys + was.supervisors.Keys;
      var rotate := RosterDrafts(NewTerms(b, uid, removed, d), Rotate, d.secret, d.wraps);
      var notices := DestroyDrafts(was, PartyOrder(b.parties), b.parties, kept);
      EncodeKeepsLabels(c, rotate, Some(secret));
      EncodeKeepsLabels(c, notices, Some(secret));
      RosterLabels(NewTerms(b, uid, removed, d), Rotate, d.secret, d.wraps);
      NoticesCover(was, b.parties, kept);
      SortedListing(was.members.Keys);
      SortedListing(was.supervisors.Keys);
      LabelsAppend(EncodeAll(c, rotate, Some(secret)).value, EncodeAll(c, notices, Some(secret)).value);
      PartsOfRoster(b.parties.Keys, was.members.Keys, was.supervisors.Keys);
    }
  }

  lemma PartsOfRoster(all: set<string>, members: set<string>, supervisors: set<string>)
    requires members <= all && supervisors <= all && members !! supervisors
    ensures multiset(members) + multiset(supervisors) + multiset(all - (members + supervisors)) == multiset(all)
  {
  }

  /** What each label of the old roster gets: remaining members the new secret, needed parents the new
  roster, all others a notice for the key they still hold. */
  predicate Addressed(b: Bridge, plan: Removal, p: Package) {
    if plan.RotatePlan? && p.recipientLabel in plan.members then
      p.kind.Rotate? && p.role.MemberRole? && p.public == plan.public
      && p.secret.Some? && p.secret.value.1 == plan.secret && p.recipient == plan.members[p.recipientLabel].encryption
    else if plan.RotatePlan? && p.recipientLabel in plan.supervisors then
      p.kind.Supervisor? && p.public == plan.public && p.secret.None? && p.recipient == plan.supervisors[p.recipientLabel]
    else
      p.kind.Destroy? && p.public == b.public && p.generation == b.generation && p.secret.None?
      && p.recipientLabel in b.parties && p.recipient == b.parties[p.recipientLabel].encryption
  }

  lemma {:induction false} NoticeAddressed(t: Terms, order: seq<string>, parties: map<string, Party>, kept: set<string>,
                                           d: Package)
    requires (forall l :: l in order ==> l in parties) && d in DestroyDrafts(t, order, parties, kept)
    ensures d.recipientLabel in parties && d.recipientLabel !in kept && d.secret.None?
    ensures d.recipient == parties[d.recipientLabel].encryption
  {
    assert order[0] in order;
    if d in DestroyDrafts(t, order[1..], parties, kept) {
      NoticeAddressed(t, order[1..], parties, kept, d);
    } else {
      assert d == DestroyDraft(t, order[0], parties[order[0]]);
    }
  }

  lemma RosterAddressed(t: Terms, kind: Kind, secret: Secret, wraps: string -> Salt, d: Package)
    requires d in RosterDrafts(t, kind, secret, wraps) && t.members.Keys !! t.supervisors.Keys
    ensures d.recipientLabel in t.members ==>
      d.kind == kind && d.role.MemberRole? && d.secret.Some? && d.recipient == t.members[d.recipientLabel].encryption
    ensures d.recipientLabel !in t.members ==>
      d.recipientLabel in t.supervisors && d.kind.Supervisor? && d.secret.None?
      && d.recipient == t.supervisors[d.recipientLabel]
  {
    var l := DraftSource(t, kind, secret, wraps, d);
  }

  /** What a creation's package for a label holds, given the plan's roster. */
  predicate Invites(title: Option<string>, uid: string, d: Draws, members: map<string, MemberKeys>,
                    supervisors: map<string, Public>, p: Package)
  {
    && p.uid == uid && p.generation == 1 && p.public == PublicOf(d.secret) && p.salt == d.salt && p.auth.None?
    && p.title == (if title.Some? then title.value else "") && p.removedLabel == ""
    && p.members == members && p.supervisors == supervisors
    && if p.recipientLabel in members then
         p.kind.Invite? && p.role.MemberRole? && p.secret == Some((d.wraps(p.recipientLabel), d.secret))
         && p.recipient == members[p.recipientLabel].encryption
       else
         p.recipientLabel in supervisors && p.kind.Supervisor? && p.role.SupervisorRole? && p.secret.None?
         && p.recipient == supervisors[p.recipientLabel]
  }

  /** Members get the secret, each under its own key, and supervisors the roster alone. */
  lemma CreationSendsRight(c: Checks, keyId: Option<int>, title: Option<string>, memberInputs: seq<PartyInput>,
                           supervisorInputs: seq<PartyInput>, localLabel: Option<string>, uid: string, d: Draws, p: Package)
    requires PlanCreate(c, keyId, title, memberInputs, supervisorInputs, localLabel, uid, d).Ok?
    requires p in PlanCreate(c, keyId, title, memberInputs, supervisorInputs, localLabel, uid, d).value.1
    ensures var plan := PlanCreate(c, keyId, title, memberInputs, supervisorInputs, localLabel, uid, d).value.0;
      Invites(title, uid, d, plan.members, plan.supervisors, p)
  {
    PlanCreateFacts(c, keyId, title, memberInputs, supervisorInputs, localLabel, uid, d);
    var plan := PlanCreate(c, keyId, title, memberInputs, supervisorInputs, localLabel, uid, d).value.0;
    PlanSendsRight(c, plan, d, p);
  }

  lemma PlanSendsRight(c: Checks, plan: Creation, d: Draws, p: Package)
    requires plan.members.Keys !! plan.supervisors.Keys && plan.public == PublicOf(d.secret) && plan.salt == d.salt
    requires EncodeAll(c, RosterDrafts(CreationTerms(plan), Invite, d.secret, d.wraps), None).Ok?
    requires p in EncodeAll(c, RosterDrafts(CreationTerms(plan), Invite, d.secret, d.wraps), None).value
    ensures Invites(plan.title, plan.uid, d, plan.members, plan.supervisors, p)
  {
    var drafts := RosterDrafts(CreationTerms(plan), Invite, d.secret, d.wraps);
    var draft := EncodedFrom(c, drafts, None, p);
    var l := DraftSource(CreationTerms(plan), Invite, d.secret, d.wraps, draft);
  }

  lemma {:induction false} RotatedAddressed(c: Checks, b: Bridge, uid: string, removed: string, d: Draws, secret: Secret,
                                            plan: Removal,
                         p: Package)
    requires var next := NewTerms(b, uid, removed, d);
      && EncodeAll(c, RosterDrafts(next, Rotate, d.secret, d.wraps), Some(secret)).Ok?
      && p in EncodeAll(c, RosterDrafts(next, Rotate, d.secret, d.wraps), Some(secret)).value
    requires var next := NewTerms(b, uid, removed, d);
      && plan.RotatePlan? && plan.members == next.members && plan.supervisors == next.supervisors
      && plan.public == next.public && plan.secret == d.secret
    ensures Addressed(b, plan, p)
  {
    var next := NewTerms(b, uid, removed, d);
    var draft := EncodedFrom(c, RosterDrafts(next, Rotate, d.secret, d.wraps), Some(secret), p);
    NewRosterDisjoint(b, uid, removed);
    DraftsAre(next, Rotate, d.secret, d.wraps, draft);
    RosterAddressed(next, Rotate, d.secret, d.wraps, draft);
  }

  lemma {:induction false} NoticedAddressed(c: Checks, b: Bridge, uid: string, removed: string, kept: set<string>,
                                            secret: Secret,
                         plan: Removal, p: Package)
    requires var drafts := DestroyDrafts(OldTerms(b, uid, removed), PartyOrder(b.parties), b.parties, kept);
      EncodeAll(c, drafts, Some(secret)).Ok? && p in EncodeAll(c, drafts, Some(secret)).value
    requires plan.RotatePlan? ==> kept == plan.members.Keys + plan.supervisors.Keys
    ensures Addressed(b, plan, p)
  {
    var was := OldTerms(b, uid, removed);
    var drafts := DestroyDrafts(was, PartyOrder(b.parties), b.parties, kept);
    var draft := EncodedFrom(c, drafts, Some(secret), p);
    NoticesAre(was, PartyOrder(b.parties), b.parties, kept, draft);
    NoticeAddressed(was, PartyOrder(b.parties), b.parties, kept, draft);
  }

  /** Every package of a removal is the one its label should get. */
  lemma RemovalSendsRight(c: Checks, t: Table, uid: string, removed: string, localName: string, encryptionSk: Secret,
                          d: Draws, p: Package)
    requires PlanRemoval(c, t, uid, removed, localName, encryptionSk, d).Ok?
    requires p in PlanRemoval(c, t, uid, removed, localName, encryptionSk, d).value.1
    ensures uid in t && Addressed(t[uid], PlanRemoval(c, t, uid, removed, localName, encryptionSk, d).value.0, p)
  {
    RemovalFacts(c, t, uid, removed, localName, encryptionSk, d);
    var secret := MayRemove(t, uid, removed, localName, encryptionSk).value;
    var b := t[uid];
    var plan := PlanRemoval(c, t, uid, removed, localName, encryptionSk, d).value.0;
    var was := OldTerms(b, uid, removed);
    if |was.members| < 2 {
      NoticedAddressed(c, b, uid, removed, {}, secret, plan, p);
    } else {
      var kept := was.members.Keys + was.supervisors.Keys;
      var rotate := EncodeAll(c, RosterDrafts(NewTerms(b, uid, removed, d), Rotate, d.secret, d.wraps), Some(secret));
      if p in rotate.value {
        RotatedAddressed(c, b, uid, removed, d, secret, plan, p);
      } else {
        NoticedAddressed(c, b, uid, removed, kept, secret, plan, p);
      }
    }
  }

  // ----- parents stay on the roster

  /** Every member's direct parent is on the roster, in either role. */
  ghost predicate RosterClosed(parties: map<string, Party>) {
    forall l :: l in LiveMembers(parties) && ParentLabel(l).Some? ==> ParentLabel(l).value in parties
  }

  ghost predicate Sound(members: map<string, MemberKeys>, supervisors: map<string, Public>) {
    ParentClosed(members, supervisors.Keys) && members.Keys !! supervisors.Keys && |members| >= 2
  }

  /** A planned creation has at least two members and every member's parent on the roster. */
  lemma CreationIsSound(c: Checks, keyId: Option<int>, title: Option<string>, memberInputs: seq<PartyInput>,
                        supervisorInputs: seq<PartyInput>, localLabel: Option<string>, uid: string, d: Draws)
    requires NewCreation(c, keyId, title, memberInputs, supervisorInputs, localLabel, uid, d).Ok?
    ensures var p := NewCreation(c, keyId, title, memberInputs, supervisorInputs, localLabel, uid, d).value;
      Sound(p.members, p.supervisors)
  {
    var p := NewCreation(c, keyId, title, memberInputs, supervisorInputs, localLabel, uid, d).value;
    forall l | l in p.members && ParentLabel(l).Some? ensures ParentLabel(l).value in p.members.Keys + p.supervisors.Keys {
      assert ParentLabel(l).value in ParentsOf(p.members);
    }
  }

  /** From a roster with all parents, a rotation plans one with all parents and at least two members. */
  lemma RemovalIsSound(c: Checks, t: Table, uid: string, removed: string, localName: string, encryptionSk: Secret, d: Draws)
    requires PlanRemoval(c, t, uid, removed, localName, encryptionSk, d).Ok?
    requires uid in t && RosterClosed(t[uid].parties)
    ensures var p := PlanRemoval(c, t, uid, removed, localName, encryptionSk, d).value.0;
      p.RotatePlan? ==> Sound(p.members, p.supervisors)
  {
    RemovalFacts(c, t, uid, removed, localName, encryptionSk, d);
    var p := PlanRemoval(c, t, uid, removed, localName, encryptionSk, d).value.0;
    if p.RotatePlan? {
      NewRosterDisjoint(t[uid], uid, removed);
      forall l | l in p.members && ParentLabel(l).Some?
        ensures ParentLabel(l).value in p.members.Keys + p.supervisors.Keys
      {
        assert l in LiveMembers(t[uid].parties);
        assert ParentLabel(l).value in ParentsOf(p.members);
      }
    }
  }

  /** Every roster ever planned is sound, and nothing was dropped. */
  ghost predicate AllSound(net: Net) {
    && (forall p :: p in net.epochs ==> Sound(net.epochs[p].members, net.epochs[p].supervisors))
    && (forall i, uid :: DroppedAt(net, i, uid) == {})
  }

  lemma EpochRoster(e: Epoch, b: Bridge)
    requires RosterOk(e, b, {}) && Sound(e.members, e.supervisors)
    ensures RosterClosed(b.parties) && LiveMembers(b.parties) == e.members.Keys
  {
    forall l ensures l in LiveMembers(b.parties) <==> l in e.members {
      if l in b.parties {
        assert PartyOk(e, l, b.parties[l]);
      }
    }
  }

  lemma StoredRoster(net: Net, i: nat, uid: string)
    requires Inv(net) && AllSound(net) && i < |net.stores| && uid in net.stores[i]
    ensures RosterClosed(net.stores[i][uid].parties) && |LiveMembers(net.stores[i][uid].parties)| >= 2
  {
    StoreBridge(net, i, uid);
    EpochRoster(net.epochs[net.stores[i][uid].public], net.stores[i][uid]);
    assert |net.epochs[net.stores[i][uid].public].members| == |net.epochs[net.stores[i][uid].public].members.Keys|;
  }

  lemma PlannedIsSound(c: Checks, s: Step)
    requires s.PlanCreation?
    ensures var r := PlanCreate(c, s.keyId, s.title, s.memberInputs, s.supervisorInputs, s.localLabel, s.uid, s.draws);
      r.Ok? ==> Sound(r.value.0.members, r.value.0.supervisors)
  {
    if PlanCreate(c, s.keyId, s.title, s.memberInputs, s.supervisorInputs, s.localLabel, s.uid, s.draws).Ok? {
      CreationIsSound(c, s.keyId, s.title, s.memberInputs, s.supervisorInputs, s.localLabel, s.uid, s.draws);
    }
  }

  lemma EpochAdded(net: Net, after: Net, p: Public, e: Epoch)
    requires AllSound(net) && after.dropped == net.dropped && after.epochs == net.epochs[p := e]
    requires Sound(e.members, e.supervisors)
    ensures AllSound(after)
  {
    assert forall j, x :: DroppedAt(after, j, x) == DroppedAt(net, j, x);
  }

  lemma NothingAdded(net: Net, after: Net)
    requires AllSound(net) && after.dropped == net.dropped && after.epochs == net.epochs
    ensures AllSound(after)
  {
    assert forall j, x :: DroppedAt(after, j, x) == DroppedAt(net, j, x);
  }

  lemma PlanCreationStaysSound(c: Checks, net: Net, s: Step)
    requires AllSound(net) && s.PlanCreation?
    ensures AllSound(AfterPlanCreation(c, net, s))
  {
    var r := PlanCreate(c, s.keyId, s.title, s.memberInputs, s.supervisorInputs, s.localLabel, s.uid, s.draws);
    PlannedIsSound(c, s);
    if r.Ok? {
      var plan := r.value.0;
      EpochAdded(net, AfterPlanCreation(c, net, s), plan.public,
                 Epoch(plan.uid, 1, plan.salt, plan.members, plan.supervisors, None));
    }
  }

  lemma PlanRemoveStaysSound(c: Checks, net: Net, s: Step)
    requires Inv(net) && AllSound(net) && s.PlanRemove? && Enabled(net, s)
    ensures AllSound(AfterPlanRemove(c, net, s))
  {
    var r := PlanRemoval(c, net.stores[s.i], s.uid, s.removed, s.localName, s.encryptionSk, s.draws);
    if r.Ok? {
      RemovedIsSound(c, net, s);
      var plan := r.value.0;
      if plan.RotatePlan? {
        EpochAdded(net, AfterPlanRemove(c, net, s), plan.public,
                   Epoch(plan.uid, plan.generation, plan.salt, plan.members, plan.supervisors,
                         Some(net.stores[s.i][s.uid].public)));
      } else {
        NothingAdded(net, AfterPlanRemove(c, net, s));
      }
    }
  }

  lemma RemovedIsSound(c: Checks, net: Net, s: Step)
    requires Inv(net) && AllSound(net) && s.PlanRemove? && Enabled(net, s)
    requires PlanRemoval(c, net.stores[s.i], s.uid, s.removed, s.localName, s.encryptionSk, s.draws).Ok?
    ensures var plan := PlanRemoval(c, net.stores[s.i], s.uid, s.removed, s.localName, s.encryptionSk, s.draws).value.0;
      s.uid in net.stores[s.i] && (plan.RotatePlan? ==> Sound(plan.members, plan.supervisors))
  {
    RemovalFacts(c, net.stores[s.i], s.uid, s.removed, s.localName, s.encryptionSk, s.draws);
    StoredRoster(net, s.i, s.uid);
    RemovalIsSound(c, net.stores[s.i], s.uid, s.removed, s.localName, s.encryptionSk, s.draws);
  }

  lemma StepStaysSound(c: Checks, net: Net, s: Step)
    requires Inv(net) && AllSound(net) && Enabled(net, s) && !s.Drop?
    ensures AllSound(After(c, net, s))
  {
    match s {
      case PlanCreation(_, _, _, _, _, _, _, _) => PlanCreationStaysSound(c, net, s);
      case CommitNew(i, creation, wrapSalt) =>
        if CommitCreation(c, net.stores[i], creation, wrapSalt).Ok? {
          PutNothingDropped(net, i, creation.uid, CommitCreation(c, net.stores[i], creation, wrapSalt).value);
        }
      case ImportSent(i, package, encryptionSk) =>
        if Import(c, net.stores[i], package, encryptionSk).Ok? {
          PutNothingDropped(net, i, package.uid, Import(c, net.stores[i], package, encryptionSk).value);
        }
      case PlanRemove(_, _, _, _, _, _) => PlanRemoveStaysSound(c, net, s);
      case CommitRemove(i, removal, wrapSalt) =>
        if CommitRemoval(c, net.stores[i], removal, wrapSalt).Ok? {
          PutNothingDropped(net, i, removal.uid, CommitRemoval(c, net.stores[i], removal, wrapSalt).value);
        }
    }
  }

  lemma PutNothingDropped(net: Net, i: nat, uid: string, t: Table)
    requires i < |net.stores| && forall j, x :: DroppedAt(net, j, x) == {}
    ensures forall j, x :: DroppedAt(WithTable(net, i, uid, t), j, x) == {}
  {
    forall j, x ensures DroppedAt(WithTable(net, i, uid, t), j, x) == {} {
      assert DroppedAt(net, j, x) == {};
    }
  }

  /** In every run without coordinator drops, every stored roster has every member's direct parent and
  at least two members. */
  lemma {:induction false} RunStaysSound(c: Checks, net: Net, steps: seq<Step>, i: nat, uid: string)
    requires Inv(net) && AllSound(net) && IsRun(c, net, steps) && forall k :: 0 <= k < |steps| ==> !steps[k].Drop?
    ensures var after := AfterRun(c, net, steps);
      i < |after.stores| && uid in after.stores[i] ==>
        RosterClosed(after.stores[i][uid].parties) && |LiveMembers(after.stores[i][uid].parties)| >= 2
    decreases steps
  {
    if steps == [] {
      if i < |net.stores| && uid in net.stores[i] {
        StoredRoster(net, i, uid);
      }
    } else {
      StepKeeps(c, net, steps[0]);
      StepStaysSound(c, net, steps[0]);
      RunStaysSound(c, After(c, net, steps[0]), steps[1..], i, uid);
    }
  }

  // ----- the coordinator's drop

  /** A drop that leaves the bridge live keeps all parents exactly when nobody remaining hangs below
  the dropped label. */
  lemma DropKeepsParentsIff(t: Table, uid: string, removed: string)
    requires uid in t && !t[uid].destroyed && RosterClosed(t[uid].parties)
    requires !DropMember(t, uid, removed).value[uid].destroyed
    ensures RosterClosed(DropMember(t, uid, removed).value[uid].parties) <==>
      forall l :: l in LiveMembers(t[uid].parties) && l != removed ==> ParentLabel(l) != Some(removed)
  {
    var before, after := t[uid].parties, DropMember(t, uid, removed).value[uid].parties;
    assert forall l :: l in LiveMembers(after) <==> l in LiveMembers(before) && l != removed;
  }

  // A network in which a drop orphans a member: one store plans a bridge of S, S.2 and A, commits it
  // and drops S.

  function Accepting(): Checks {
    Checks(_ => false, _ => true)
  }

  function OrphanInputs(): seq<PartyInput> {
    [PartyInput("S", Public(1), Some(Public(2))), PartyInput("S.2", Public(3), Some(Public(4))),
     PartyInput("A", Public(5), Some(Public(6)))]
  }

  function OrphanMembers(): map<string, MemberKeys> {
    map["S" := MemberKeys(Public(1), Public(2)), "S.2" := MemberKeys(Public(3), Public(4)),
        "A" := MemberKeys(Public(5), Public(6))]
  }

  function OrphanDraws(): Draws {
    Draws(Secret(7), 0, _ => 0)
  }

  function OrphanCreation(): Creation {
    Creation("b", None, None, Public(7), 0, OrphanMembers(), map[], None, Secret(7))
  }

  function OrphanPlan(): Step {
    PlanCreation(0, None, None, OrphanInputs(), [], None, "b", OrphanDraws())
  }

  function OrphanCommit(): Step {
    CommitNew(0, OrphanCreation(), 0)
  }

  function OrphanDrop(): Step {
    Drop(0, "b", "S")
  }

  function OrphanBridge(): Bridge {
    Bridge(None, None, 1, Public(7), 0, false, PartiesOf(OrphanMembers(), map[], None), map[])
  }

  lemma {:induction false} PlainPackagesEncode(c: Checks, drafts: seq<Package>)
    requires forall i :: 0 <= i < |drafts| ==> !c.weak(drafts[i].recipient)
    ensures EncodeAll(c, drafts, None).Ok?
  {
    if drafts != [] {
      PlainPackagesEncode(c, drafts[1..]);
    }
  }

  lemma {:induction false} OrphanMembersUnique()
    ensures UniqueMembers(Accepting(), OrphanInputs(), map[]) == Ok(OrphanMembers())
  {
    var c, q := Accepting(), OrphanInputs();
    var one := map["S" := MemberKeys(Public(1), Public(2))];
    var two := one["S.2" := MemberKeys(Public(3), Public(4))];
    var all := two["A" := MemberKeys(Public(5), Public(6))];
    assert q[1..][1..] == q[2..] && q[2..][1..] == [];
    assert UniqueMembers(c, [], all) == Ok(all);
    assert "A" !in two && "S.2" !in one;
    assert UniqueMembers(c, q[2..], two) == Ok(all);
    assert UniqueMembers(c, q[1..], one) == Ok(all);
    assert all == OrphanMembers();
  }

  lemma OrphanPlanned()
    ensures NewCreation(Accepting(), None, None, OrphanInputs(), [], None, "b", OrphanDraws()) == Ok(OrphanCreation())
  {
    OrphanMembersUnique();
    DottedParent();
    assert OrphanMembers().Keys == {"S", "S.2", "A"};
    assert |OrphanMembers()| == |OrphanMembers().Keys| == 3;
    assert ParentsOf(OrphanMembers()) == {"S"};
    var none: map<string, Public> := map[];
    assert FillImplied(OrphanMembers(), none).Ok?;
    assert FillImplied(OrphanMembers(), none).value == none;
  }

  ghost function Planned(): Net {
    After(Accepting(), Start(1), OrphanPlan())
  }

  lemma OrphanPlanStep()
    ensures Enabled(Start(1), OrphanPlan())
    ensures |Planned().stores| == 1 && Planned().stores[0] == map[] && (0, OrphanCreation()) in Planned().creations
  {
    OrphanPlanned();
    PlainPackagesEncode(Accepting(), RosterDrafts(CreationTerms(OrphanCreation()), Invite, Secret(7), OrphanDraws().wraps));
    assert Planned() == AfterPlanCreation(Accepting(), Start(1), OrphanPlan());
  }

  ghost function Committed(): Net
    requires |Planned().stores| == 1
  {
    After(Accepting(), Planned(), OrphanCommit())
  }

  lemma OrphanCommitStep()
    ensures |Planned().stores| == 1 && Enabled(Planned(), OrphanCommit())
    ensures |Committed().stores| == 1 && Committed().stores[0] == map["b" := OrphanBridge()]
  {
    OrphanPlanStep();
    var none: Table := map[];
    assert CommitCreation(Accepting(), none, OrphanCreation(), 0) == Ok(none["b" := OrphanBridge()]);
  }

  lemma TwoSteps(c: Checks, net: Net, a: Step, b: Step)
    requires Enabled(net, a) && Enabled(After(c, net, a), b)
    ensures IsRun(c, net, [a, b]) && AfterRun(c, net, [a, b]) == After(c, After(c, net, a), b)
  {
    assert [a, b][1..] == [b] && [b][1..] == [];
    assert IsRun(c, After(c, net, a), [b]);
    assert AfterRun(c, After(c, net, a), [b]) == After(c, After(c, net, a), b);
  }

  lemma OneStepMore(c: Checks, net: Net, a: Step, b: Step, d: Step)
    requires Enabled(net, a) && Enabled(After(c, net, a), b) && Enabled(After(c, After(c, net, a), b), d)
    ensures IsRun(c, net, [a, b, d]) && AfterRun(c, net, [a, b, d]) == After(c, After(c, After(c, net, a), b), d)
  {
    assert [a, b, d][1..] == [b, d];
    TwoSteps(c, After(c, net, a), b, d);
  }

  /** The roster of the bridge the store reached holds every member's parent. */
  ghost predicate ClosedIn(net: Net) {
    |net.stores| == 1 && "b" in net.stores[0] && !net.stores[0]["b"].destroyed && RosterClosed(net.stores[0]["b"].parties)
  }

  /** It is still live and holds a member whose parent is missing. */
  ghost predicate OrphanIn(net: Net) {
    |net.stores| == 1 && "b" in net.stores[0] && !net.stores[0]["b"].destroyed && !RosterClosed(net.stores[0]["b"].parties)
  }

  /** From the empty network, planning and committing the bridge gives a closed roster, and the drop
  after that leaves a member of the live bridge without its direct parent. */
  lemma DropMayOrphan()
    ensures IsRun(Accepting(), Start(1), [OrphanPlan(), OrphanCommit()])
    ensures ClosedIn(AfterRun(Accepting(), Start(1), [OrphanPlan(), OrphanCommit()]))
    ensures IsRun(Accepting(), Start(1), [OrphanPlan(), OrphanCommit(), OrphanDrop()])
    ensures OrphanIn(AfterRun(Accepting(), Start(1), [OrphanPlan(), OrphanCommit(), OrphanDrop()]))
  {
    OrphanPlanStep();
    OrphanCommitStep();
    OrphanDropStep(Committed());
    TwoSteps(Accepting(), Start(1), OrphanPlan(), OrphanCommit());
    OneStepMore(Accepting(), Start(1), OrphanPlan(), OrphanCommit(), OrphanDrop());
  }

  lemma OrphanDropStep(net: Net)
    requires |net.stores| == 1 && net.stores[0] == map["b" := OrphanBridge()]
    ensures ClosedIn(net) && OrphanIn(After(Accepting(), net, OrphanDrop()))
  {
    OrphanLabels();
    DottedParent();
    var after := OrphanBridge().parties - {"S"};
    assert "S.2" in LiveMembers(after) && "S" !in after;
    assert DropMember(net.stores[0], "b", "S").value["b"].parties == after;
  }

  lemma OrphanLabels()
    ensures LiveMembers(OrphanBridge().parties) == {"S", "S.2", "A"}
    ensures |LiveMembers(OrphanBridge().parties) - {"S"}| == 2
  {
    var parties := OrphanBridge().parties;
    assert parties.Keys == OrphanMembers().Keys == {"S", "S.2", "A"};
    assert {"S", "S.2", "A"} - {"S"} == {"S.2", "A"};
  }

  lemma DottedParent()
    ensures ParentLabel("S.2") == Some("S") && ParentLabel("S").None? && ParentLabel("A").None?
  {
    assert "S.2"[..2] == "S." && "S."[..1] == "S";
    assert ParentLabel("S.") == Some("S");
    assert "S"[..0] == "" && "A"[..0] == "";
  }
}
