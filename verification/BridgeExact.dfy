/** What each bridge operation does, said in terms of roster rows and keys and not of the functions that
compute it: exactly when it succeeds, and what it leaves behind. */
module BridgeExact {
  import opened Errors
  import opened Bridges
  import opened BridgeNet
  import opened BridgeRuns
  import opened BridgeRosters

  // ----- labels

  /** The parent of a label stands before its last dot; a label without a dot has none. */
  lemma {:induction false} ParentLabelIs(name: string)
    ensures match ParentLabel(name)
      case None => '.' !in name
      case Some(parent) =>
        && |parent| < |name| && name[..|parent|] == parent && name[|parent|] == '.'
        && '.' !in name[|parent| + 1..]
  {
    if name != "" && name[|name| - 1] != '.' {
      ParentLabelIs(name[..|name| - 1]);
      var front := name[..|name| - 1];
      assert name == front + [name[|name| - 1]];
      if ParentLabel(front).Some? {
        var n := |ParentLabel(front).value|;
        assert name[n + 1..] == front[n + 1..] + [name[|name| - 1]];
      }
    }
  }

  lemma TwoOf<T>(s: set<T>)
    ensures |s| >= 2 <==> exists x, y :: x in s && y in s && x != y
  {
    if |s| >= 1 {
      var x :| x in s;
      if |s| >= 2 {
        assert |s - {x}| >= 1;
        var y :| y in s - {x};
      }
    }
    if x, y :| x in s && y in s && x != y {
      assert |{x, y}| == 2 && {x, y} <= s;
      assert s == (s - {x, y}) + {x, y};
    }
  }

  // ----- encoding

  /** A package is encoded exactly when its recipient's key is usable and, to be signed, its roster has no
  empty label; it is the draft, signed over all its fields if there is a signer. */
  lemma EncodeExact(c: Checks, d: Package, signer: Option<Secret>)
    ensures Encode(c, d, signer).Ok? <==>
      !c.weak(d.recipient) && (signer.Some? ==> "" !in d.members && "" !in d.supervisors)
    ensures Encode(c, d, signer).Ok? ==> Encode(c, d, signer).value == d.(auth :=
      if signer.None? then d.auth else Some(Signature(PublicOf(signer.value), OfUpdate(UpdateOf(d)))))
  {
  }

  lemma {:induction false} EncodeAllIff(c: Checks, drafts: seq<Package>, signer: Option<Secret>)
    ensures EncodeAll(c, drafts, signer).Ok? <==> forall i :: 0 <= i < |drafts| ==> Encode(c, drafts[i], signer).Ok?
  {
    if drafts != [] {
      EncodeAllIff(c, drafts[1..], signer);
      if EncodeAll(c, drafts, signer).Ok? {
        EncodeAllAt(c, drafts, signer);
      } else if forall i :: 0 <= i < |drafts| ==> Encode(c, drafts[i], signer).Ok? {
        forall i | 0 <= i < |drafts[1..]| ensures Encode(c, drafts[1..][i], signer).Ok? {
          assert drafts[1..][i] == drafts[i + 1];
        }
      }
    }
  }

  // ----- removing a member

  /** A member row other than the removed one. */
  predicate Remains(parties: map<string, Party>, removed: string, l: string) {
    l in parties && parties[l].MemberParty? && l != removed
  }

  /** A row that is not a remaining member but the parent of one. */
  ghost predicate Watches(parties: map<string, Party>, removed: string, l: string) {
    && l in parties && !Remains(parties, removed, l)
    && exists m :: Remains(parties, removed, m) && ParentLabel(m) == Some(l)
  }

  ghost predicate TwoRemain(parties: map<string, Party>, removed: string) {
    exists x, y :: Remains(parties, removed, x) && Remains(parties, removed, y) && x != y
  }

  lemma MembersAreRemaining(parties: map<string, Party>, removed: string)
    ensures var ms := RemainingMembers(parties, removed);
      && (forall l :: l in ms <==> Remains(parties, removed, l))
      && (forall l :: l in ms ==> ms[l] == MemberKeys(parties[l].encryption, parties[l].signing))
      && (|ms| >= 2 <==> TwoRemain(parties, removed))
  {
    var ms := RemainingMembers(parties, removed);
    TwoOf(ms.Keys);
    assert |ms| == |ms.Keys|;
    assert forall l :: l in ms.Keys <==> Remains(parties, removed, l);
  }

  lemma SupervisorsAreWatching(parties: map<string, Party>, removed: string)
    ensures var ss := SupervisorsFor(RemainingMembers(parties, removed), parties);
      && (forall l :: l in ss <==> Watches(parties, removed, l))
      && (forall l :: l in ss ==> ss[l] == parties[l].encryption)
  {
    var ms := RemainingMembers(parties, removed);
    forall l ensures l in ParentsOf(ms) <==> exists m :: Remains(parties, removed, m) && ParentLabel(m) == Some(l) {
      if l in ParentsOf(ms) {
        var m :| m in ms && ParentLabel(m).Some? && ParentLabel(m).value == l;
        assert Remains(parties, removed, m);
      }
      if m :| Remains(parties, removed, m) && ParentLabel(m) == Some(l) {
        assert m in ms && ParentLabel(m).value == l;
      }
    }
    MembersAreRemaining(parties, removed);
  }

  /** The roster of a removal: the remaining members and the parents they still need. */
  ghost predicate NewRoster(parties: map<string, Party>, removed: string, members: map<string, MemberKeys>,
                            supervisors: map<string, Public>) {
    && (forall l :: l in members <==> Remains(parties, removed, l))
    && (forall l :: l in members ==> members[l] == MemberKeys(parties[l].encryption, parties[l].signing))
    && (forall l :: l in supervisors <==> Watches(parties, removed, l))
    && (forall l :: l in supervisors ==> supervisors[l] == parties[l].encryption)
  }

  lemma OldTermsRoster(b: Bridge, uid: string, removed: string)
    ensures NewRoster(b.parties, removed, OldTerms(b, uid, removed).members, OldTerms(b, uid, removed).supervisors)
    ensures |OldTerms(b, uid, removed).members| >= 2 <==> TwoRemain(b.parties, removed)
  {
    MembersAreRemaining(b.parties, removed);
    SupervisorsAreWatching(b.parties, removed);
  }

  /** The plan of a removal: it rotates exactly when two members remain, and then to a new key, one
  generation on, for exactly the members that remain and the parents they need. */
  ghost predicate Planned(b: Bridge, uid: string, removed: string, localLabel: string, d: Draws, plan: Removal) {
    && plan.uid == uid && plan.removed == removed && plan.expected == b.generation
    && (plan.RotatePlan? <==> TwoRemain(b.parties, removed))
    && (plan.RotatePlan? ==>
          && plan.localLabel == localLabel && plan.generation == b.generation + 1 && plan.salt == d.salt
          && plan.secret == d.secret && plan.public == PublicOf(d.secret)
          && NewRoster(b.parties, removed, plan.members, plan.supervisors) && removed !in plan.members)
  }

  lemma RemovalPlanned(c: Checks, t: Table, uid: string, removed: string, localLabel: string, encryptionSk: Secret, d: Draws)
    requires PlanRemoval(c, t, uid, removed, localLabel, encryptionSk, d).Ok?
    ensures uid in t
    ensures Planned(t[uid], uid, removed, localLabel, d, PlanRemoval(c, t, uid, removed, localLabel, encryptionSk, d).value.0)
  {
    RemovalFacts(c, t, uid, removed, localLabel, encryptionSk, d);
    OldTermsRoster(t[uid], uid, removed);
  }

  /** The envelope a roster label gets: a remaining member the new secret, a needed parent the new roster
  without it, everyone else, the removed member among them, a notice about the old key. */
  ghost predicate Delivered(b: Bridge, removed: string, d: Draws, p: Package) {
    var l := p.recipientLabel;
    && l in b.parties && p.recipient == b.parties[l].encryption
    && NewRoster(b.parties, removed, p.members, p.supervisors)
    && p.title == (if b.title.Some? then b.title.value else "")
    && if TwoRemain(b.parties, removed) && (Remains(b.parties, removed, l) || Watches(b.parties, removed, l)) then
         && p.public == PublicOf(d.secret) && p.generation == b.generation + 1 && p.salt == d.salt
         && if Remains(b.parties, removed, l)
            then p.kind.Rotate? && p.role.MemberRole? && p.secret == Some((d.wraps(l), d.secret))
            else p.kind.Supervisor? && p.role.SupervisorRole? && p.secret.None?
       else
         && p.kind.Destroy? && p.public == b.public && p.generation == b.generation && p.salt == b.salt && p.secret.None?
         && (p.role.MemberRole? <==> b.parties[l].MemberParty?)
  }

  lemma RosterDelivered(b: Bridge, uid: string, removed: string, d: Draws, draft: Package)
    requires TwoRemain(b.parties, removed)
    requires draft in RosterDrafts(NewTerms(b, uid, removed, d), Rotate, d.secret, d.wraps)
    ensures Delivered(b, removed, d, draft) && draft.uid == uid && draft.removedLabel == removed
  {
    var next := NewTerms(b, uid, removed, d);
    OldTermsRoster(b, uid, removed);
    var l := DraftSource(next, Rotate, d.secret, d.wraps, draft);
  }

  lemma {:induction false} NoticeTerms(t: Terms, order: seq<string>, parties: map<string, Party>, kept: set<string>, d: Package)
    requires (forall l :: l in order ==> l in parties) && d in DestroyDrafts(t, order, parties, kept)
    ensures d.members == t.members && d.supervisors == t.supervisors && d.removedLabel == t.removedLabel && d.title == t.title
    ensures d.recipientLabel in parties && (d.role.MemberRole? <==> parties[d.recipientLabel].MemberParty?)
  {
    assert order[0] in order;
    if d in DestroyDrafts(t, order[1..], parties, kept) {
      NoticeTerms(t, order[1..], parties, kept, d);
    } else {
      assert d == DestroyDraft(t, order[0], parties[order[0]]);
    }
  }

  lemma NoticeDelivered(b: Bridge, uid: string, removed: string, kept: set<string>, d: Draws, draft: Package)
    requires draft in DestroyDrafts(OldTerms(b, uid, removed), PartyOrder(b.parties), b.parties, kept)
    requires TwoRemain(b.parties, removed) ==>
      kept == OldTerms(b, uid, removed).members.Keys + OldTerms(b, uid, removed).supervisors.Keys
    ensures Delivered(b, removed, d, draft) && draft.uid == uid && draft.removedLabel == removed
  {
    var was := OldTerms(b, uid, removed);
    OldTermsRoster(b, uid, removed);
    NoticesAre(was, PartyOrder(b.parties), b.parties, kept, draft);
    NoticeAddressed(was, PartyOrder(b.parties), b.parties, kept, draft);
    NoticeTerms(was, PartyOrder(b.parties), b.parties, kept, draft);
  }

  /** Every package of a removal is the one its label should get, signed by the old bridge key over all its
  fields; none for the removed member carries a secret. */
  lemma RemovalDelivered(c: Checks, t: Table, uid: string, removed: string, localLabel: string, encryptionSk: Secret,
                         d: Draws, p: Package)
    requires PlanRemoval(c, t, uid, removed, localLabel, encryptionSk, d).Ok?
    requires p in PlanRemoval(c, t, uid, removed, localLabel, encryptionSk, d).value.1
    ensures uid in t && Delivered(t[uid], removed, d, p) && p.uid == uid && p.removedLabel == removed
    ensures p.recipientLabel == removed ==> p.secret.None?
    ensures localLabel in t[uid].sealed && p.auth ==
      Some(Signature(PublicOf(t[uid].sealed[localLabel].box.secret), OfUpdate(UpdateOf(p))))
  {
    RemovalFacts(c, t, uid, removed, localLabel, encryptionSk, d);
    var b, secret := t[uid], MayRemove(t, uid, removed, localLabel, encryptionSk).value;
    var draft := RemovalDraft(c, b, uid, removed, localLabel, secret, d, p);
    EncodeExact(c, draft, Some(secret));
    assert UpdateOf(p) == UpdateOf(draft);
  }

  lemma {:induction false} RemovalDraft(c: Checks, b: Bridge, uid: string, removed: string, localLabel: string, secret: Secret,
                     d: Draws, p: Package) returns (draft: Package)
    requires WithoutMember(c, b, uid, removed, localLabel, secret, d).Ok?
    requires p in WithoutMember(c, b, uid, removed, localLabel, secret, d).value.1
    ensures Delivered(b, removed, d, draft) && draft.uid == uid && draft.removedLabel == removed
    ensures Encode(c, draft, Some(secret)) == Ok(p)
  {
    var was := OldTerms(b, uid, removed);
    OldTermsRoster(b, uid, removed);
    var kept := if |was.members| < 2 then {} else was.members.Keys + was.supervisors.Keys;
    var rotate := RosterDrafts(NewTerms(b, uid, removed, d), Rotate, d.secret, d.wraps);
    if |was.members| >= 2 && p in EncodeAll(c, rotate, Some(secret)).value {
      draft := EncodedFrom(c, rotate, Some(secret), p);
      RosterDelivered(b, uid, removed, d, draft);
    } else {
      draft := EncodedFrom(c, DestroyDrafts(was, PartyOrder(b.parties), b.parties, kept), Some(secret), p);
      NoticeDelivered(b, uid, removed, kept, d, draft);
    }
  }

  /** The sealed row opens with this key. */
  predicate Opens(b: Bridge, name: string, encryptionSk: Secret) {
    && name in b.sealed && b.sealed[name].box.to == PublicOf(encryptionSk)
    && b.sealed[name].box.wrapSalt == b.sealed[name].wrapSalt
  }

  /** The remover may remove, and every envelope can be encoded. */
  ghost predicate CanRemove(c: Checks, t: Table, uid: string, removed: string, localLabel: string, encryptionSk: Secret) {
    && uid in t && !t[uid].destroyed && localLabel != removed
    && IsMember(t[uid], localLabel) && t[uid].parties[localLabel].encryption == PublicOf(encryptionSk)
    && Opens(t[uid], localLabel, encryptionSk) && IsMember(t[uid], removed)
    && (forall l :: l in t[uid].parties ==> !c.weak(t[uid].parties[l].encryption))
    && !Remains(t[uid].parties, removed, "") && !Watches(t[uid].parties, removed, "")
  }

  lemma RemovalEncodes(c: Checks, b: Bridge, removed: string, d: Draws, draft: Package, secret: Secret)
    requires Delivered(b, removed, d, draft)
    requires forall l :: l in b.parties ==> !c.weak(b.parties[l].encryption)
    requires !Remains(b.parties, removed, "") && !Watches(b.parties, removed, "")
    ensures Encode(c, draft, Some(secret)).Ok?
  {
  }

  lemma {:induction false} RosterEncodes(c: Checks, b: Bridge, uid: string, removed: string, d: Draws, secret: Secret)
    requires TwoRemain(b.parties, removed)
    requires forall l :: l in b.parties ==> !c.weak(b.parties[l].encryption)
    requires !Remains(b.parties, removed, "") && !Watches(b.parties, removed, "")
    ensures EncodeAll(c, RosterDrafts(NewTerms(b, uid, removed, d), Rotate, d.secret, d.wraps), Some(secret)).Ok?
  {
    var drafts := RosterDrafts(NewTerms(b, uid, removed, d), Rotate, d.secret, d.wraps);
    EncodeAllIff(c, drafts, Some(secret));
    forall i | 0 <= i < |drafts| ensures Encode(c, drafts[i], Some(secret)).Ok? {
      RosterDelivered(b, uid, removed, d, drafts[i]);
      RemovalEncodes(c, b, removed, d, drafts[i], secret);
    }
  }

  lemma {:induction false} NoticesEncode(c: Checks, b: Bridge, uid: string, removed: string, kept: set<string>, d: Draws,
                                         secret: Secret)
    requires TwoRemain(b.parties, removed) ==>
      kept == OldTerms(b, uid, removed).members.Keys + OldTerms(b, uid, removed).supervisors.Keys
    requires forall l :: l in b.parties ==> !c.weak(b.parties[l].encryption)
    requires !Remains(b.parties, removed, "") && !Watches(b.parties, removed, "")
    ensures EncodeAll(c, DestroyDrafts(OldTerms(b, uid, removed), PartyOrder(b.parties), b.parties, kept), Some(secret)).Ok?
  {
    var drafts := DestroyDrafts(OldTerms(b, uid, removed), PartyOrder(b.parties), b.parties, kept);
    EncodeAllIff(c, drafts, Some(secret));
    forall i | 0 <= i < |drafts| ensures Encode(c, drafts[i], Some(secret)).Ok? {
      NoticeDelivered(b, uid, removed, kept, d, drafts[i]);
      RemovalEncodes(c, b, removed, d, drafts[i], secret);
    }
  }

  lemma PackageFor(packages: seq<Package>, labels: set<string>, l: string) returns (p: Package)
    requires multiset(Labels(packages)) == multiset(labels) && l in labels
    ensures p in packages && p.recipientLabel == l
  {
    assert l in multiset(labels);
    assert l in Labels(packages);
    var i :| 0 <= i < |packages| && Labels(packages)[i] == l;
    p := packages[i];
  }

  /** A removal can be planned exactly when the remover is another live member that holds the sealed secret,
  the label is a member, and all envelopes can be encoded. */
  lemma RemovalSucceedsIff(c: Checks, t: Table, uid: string, removed: string, localLabel: string, encryptionSk: Secret,
                           d: Draws)
    ensures PlanRemoval(c, t, uid, removed, localLabel, encryptionSk, d).Ok?
       <==> CanRemove(c, t, uid, removed, localLabel, encryptionSk)
  {
    if CanRemove(c, t, uid, removed, localLabel, encryptionSk) {
      var b, secret := t[uid], t[uid].sealed[localLabel].box.secret;
      assert MayRemove(t, uid, removed, localLabel, encryptionSk) == Ok(secret);
      OldTermsRoster(b, uid, removed);
      var was := OldTerms(b, uid, removed);
      if |was.members| < 2 {
        NoticesEncode(c, b, uid, removed, {}, d, secret);
      } else {
        RosterEncodes(c, b, uid, removed, d, secret);
        NoticesEncode(c, b, uid, removed, was.members.Keys + was.supervisors.Keys, d, secret);
      }
    } else if PlanRemoval(c, t, uid, removed, localLabel, encryptionSk, d).Ok? {
      PlannedMeansAble(c, t, uid, removed, localLabel, encryptionSk, d);
    }
  }

  lemma PlannedMeansAble(c: Checks, t: Table, uid: string, removed: string, localLabel: string, encryptionSk: Secret, d: Draws)
    requires PlanRemoval(c, t, uid, removed, localLabel, encryptionSk, d).Ok?
    ensures CanRemove(c, t, uid, removed, localLabel, encryptionSk)
  {
    var packages := PlanRemoval(c, t, uid, removed, localLabel, encryptionSk, d).value.1;
    RemovalFacts(c, t, uid, removed, localLabel, encryptionSk, d);
    RemovalAddressesEveryone(c, t, uid, removed, localLabel, encryptionSk, d);
    var b, secret := t[uid], MayRemove(t, uid, removed, localLabel, encryptionSk).value;
    forall l | l in b.parties
      ensures !c.weak(b.parties[l].encryption) && !Remains(b.parties, removed, "") && !Watches(b.parties, removed, "")
    {
      var p := PackageFor(packages, b.parties.Keys, l);
      var draft := RemovalDraft(c, b, uid, removed, localLabel, secret, d, p);
      EncodeExact(c, draft, Some(secret));
    }
    assert removed in b.parties;
  }

  // ----- committing a removal

  /** The rows of a roster at a store whose own label is `here`. */
  ghost predicate Rows(parties: map<string, Party>, members: map<string, MemberKeys>, supervisors: map<string, Public>,
                       here: Option<string>) {
    && parties.Keys == members.Keys + supervisors.Keys
    && forall l :: l in parties ==>
         parties[l] == if l in members then MemberParty(members[l].encryption, members[l].signing, here == Some(l))
                       else SupervisorParty(supervisors[l], here == Some(l))
  }

  /** The store holds exactly one sealed secret, its own, if it is a member, and the owner of the member's
  encryption key opens it to this secret; otherwise it holds none. */
  ghost predicate HoldsSecret(b: Bridge, members: map<string, MemberKeys>, here: Option<string>, secret: Secret) {
    if here.Some? && here.value in members then
      && b.sealed.Keys == {here.value}
      && forall sk :: UnsealLocal(b, here.value, sk) ==
           if PublicOf(sk) == members[here.value].encryption then Ok(secret) else Err(IntegrityCheckFailed)
    else b.sealed == map[]
  }

  ghost predicate OnlyUid(before: Table, after: Table, uid: string) {
    after.Keys == before.Keys + {uid} && forall x :: x in before && x != uid ==> after[x] == before[x]
  }

  lemma SealedHolds(c: Checks, b: Bridge, members: map<string, MemberKeys>, here: Option<string>, wrapSalt: Salt,
                    secret: Secret)
    requires SealLocal(c, members, here, wrapSalt, secret) == Ok(b.sealed)
    ensures HoldsSecret(b, members, here, secret)
  {
  }

  /** A planned removal commits exactly at a live bridge still at the plan's generation whose remover's key
  is usable: then the store has the new key, generation, salt and roster and the remover's sealed secret,
  or, if the bridge ends, nothing but the mark. */
  lemma CommitRemovalExact(c: Checks, t: Table, p: Removal, wrapSalt: Salt)
    ensures CommitRemoval(c, t, p, wrapSalt).Ok? <==>
      && p.uid in t && !t[p.uid].destroyed && t[p.uid].generation == p.expected
      && (p.RotatePlan? ==> p.members.Keys !! p.supervisors.Keys)
      && (p.RotatePlan? && p.localLabel in p.members ==> !c.weak(p.members[p.localLabel].encryption))
    ensures CommitRemoval(c, t, p, wrapSalt).Ok? ==>
      var after := CommitRemoval(c, t, p, wrapSalt).value;
      && OnlyUid(t, after, p.uid)
      && var was, b := t[p.uid], after[p.uid];
         if p.DestroyPlan? then b == was.(destroyed := true, sealed := map[])
         else
           && b.title == was.title && b.keyId == was.keyId && !b.destroyed
           && b.generation == p.generation && b.public == p.public && b.salt == p.salt
           && Rows(b.parties, p.members, p.supervisors, Some(p.localLabel))
           && HoldsSecret(b, p.members, Some(p.localLabel), p.secret)
  {
    if CommitRemoval(c, t, p, wrapSalt).Ok? && p.RotatePlan? {
      SealedHolds(c, CommitRemoval(c, t, p, wrapSalt).value[p.uid], p.members, Some(p.localLabel), wrapSalt, p.secret);
    }
  }

  // ----- creating

  predicate MemberInput(c: Checks, p: PartyInput) {
    p.name != "" && !c.weak(p.encryption) && p.signing.Some? && c.verifying(p.signing.value)
  }

  predicate SupervisorInput(c: Checks, p: PartyInput) {
    p.name != "" && !c.weak(p.encryption)
  }

  ghost predicate NamesApart(parties: seq<PartyInput>) {
    forall i, j :: 0 <= i < j < |parties| ==> parties[i].name != parties[j].name
  }

  ghost predicate NewNames(parties: seq<PartyInput>, done: set<string>) {
    forall i :: 0 <= i < |parties| ==> parties[i].name !in done
  }

  ghost predicate AllMembers(c: Checks, parties: seq<PartyInput>) {
    forall i :: 0 <= i < |parties| ==> MemberInput(c, parties[i])
  }

  ghost predicate AllSupervisors(c: Checks, parties: seq<PartyInput>) {
    forall i :: 0 <= i < |parties| ==> SupervisorInput(c, parties[i])
  }

  lemma NamesFirst(parties: seq<PartyInput>, done: set<string>)
    requires parties != []
    ensures NamesApart(parties) && NewNames(parties, done) <==>
      parties[0].name !in done && NamesApart(parties[1..]) && NewNames(parties[1..], done + {parties[0].name})
  {
    var p, rest := parties[0], parties[1..];
    assert forall i :: 0 < i < |parties| ==> parties[i] == rest[i - 1];
    if NamesApart(parties) && NewNames(parties, done) {
      forall i | 0 <= i < |rest| ensures rest[i].name !in done + {p.name} {
        assert parties[i + 1].name != parties[0].name;
      }
    }
    if p.name !in done && NamesApart(rest) && NewNames(rest, done + {p.name}) {
      forall i, j | 0 <= i < j < |parties| ensures parties[i].name != parties[j].name {
        assert rest[j - 1].name !in done + {p.name};
        assert i > 0 ==> rest[i - 1].name != rest[j - 1].name;
      }
    }
  }

  lemma {:induction false} MembersIff(c: Checks, parties: seq<PartyInput>, done: map<string, MemberKeys>)
    ensures UniqueMembers(c, parties, done).Ok? <==>
      AllMembers(c, parties) && NamesApart(parties) && NewNames(parties, done.Keys)
    decreases parties
  {
    if parties != [] {
      var p, rest := parties[0], parties[1..];
      assert AllMembers(c, parties) <==> MemberInput(c, p) && AllMembers(c, rest) by {
        assert parties == [p] + rest;
      }
      NamesFirst(parties, done.Keys);
      if MemberInput(c, p) && p.name !in done {
        var more := done[p.name := MemberKeys(p.encryption, p.signing.value)];
        assert more.Keys == done.Keys + {p.name};
        MembersIff(c, rest, more);
      }
    }
  }

  /** Everything stays, and every input's keys are under its name. */
  lemma {:induction false} MembersHold(c: Checks, parties: seq<PartyInput>, done: map<string, MemberKeys>)
    requires UniqueMembers(c, parties, done).Ok?
    ensures var all := UniqueMembers(c, parties, done).value;
      && |all| == |done| + |parties|
      && (forall l :: l in done ==> l in all && all[l] == done[l])
      && (forall i :: 0 <= i < |parties| ==>
            && parties[i].signing.Some? && parties[i].name in all
            && all[parties[i].name] == MemberKeys(parties[i].encryption, parties[i].signing.value))
      && (forall l :: l in all && l !in done ==> NameAmong(parties, l))
    decreases parties
  {
    if parties != [] {
      var p, rest := parties[0], parties[1..];
      var more := done[p.name := MemberKeys(p.encryption, p.signing.value)];
      assert more.Keys == done.Keys + {p.name} && |more.Keys| == |done.Keys| + 1;
      MembersHold(c, rest, more);
      var all := UniqueMembers(c, rest, more).value;
      assert forall i :: 0 < i < |parties| ==> parties[i] == rest[i - 1];
      assert p.name in more;
      forall l | l in all && l !in done ensures NameAmong(parties, l) {
        if l != p.name {
          var i :| 0 <= i < |rest| && rest[i].name == l;
          assert parties[i + 1].name == l;
        }
      }
    }
  }

  ghost predicate NameAmong(parties: seq<PartyInput>, l: string) {
    exists i :: 0 <= i < |parties| && parties[i].name == l
  }

  lemma {:induction false} SupervisorsIff(c: Checks, parties: seq<PartyInput>, done: map<string, Public>)
    ensures UniqueSupervisors(c, parties, done).Ok? <==>
      AllSupervisors(c, parties) && NamesApart(parties) && NewNames(parties, done.Keys)
    decreases parties
  {
    if parties != [] {
      var p, rest := parties[0], parties[1..];
      assert AllSupervisors(c, parties) <==> SupervisorInput(c, p) && AllSupervisors(c, rest) by {
        assert parties == [p] + rest;
      }
      NamesFirst(parties, done.Keys);
      if SupervisorInput(c, p) && p.name !in done {
        var more := done[p.name := p.encryption];
        assert more.Keys == done.Keys + {p.name};
        SupervisorsIff(c, rest, more);
      }
    }
  }

  lemma {:induction false} SupervisorsHold(c: Checks, parties: seq<PartyInput>, done: map<string, Public>)
    requires UniqueSupervisors(c, parties, done).Ok?
    ensures var all := UniqueSupervisors(c, parties, done).value;
      && (forall l :: l in done ==> l in all && all[l] == done[l])
      && (forall i :: 0 <= i < |parties| ==> parties[i].name in all && all[parties[i].name] == parties[i].encryption)
      && (forall l :: l in all && l !in done ==> NameAmong(parties, l))
    decreases parties
  {
    if parties != [] {
      var p, rest := parties[0], parties[1..];
      var more := done[p.name := p.encryption];
      SupervisorsHold(c, rest, more);
      var all := UniqueSupervisors(c, rest, more).value;
      assert forall i :: 0 < i < |parties| ==> parties[i] == rest[i - 1];
      assert p.name in more;
      forall l | l in all && l !in done ensures NameAmong(parties, l) {
        if l != p.name {
          var i :| 0 <= i < |rest| && rest[i].name == l;
          assert parties[i + 1].name == l;
        }
      }
    }
  }

  /** Every member whose label has a parent has that parent among the inputs. */
  ghost predicate ParentsGiven(members: seq<PartyInput>, supervisors: seq<PartyInput>) {
    forall i :: 0 <= i < |members| && ParentLabel(members[i].name).Some? ==>
      NameAmong(members, ParentLabel(members[i].name).value) || NameAmong(supervisors, ParentLabel(members[i].name).value)
  }

  /** What the inputs of a creation must meet. */
  ghost predicate CanCreate(c: Checks, members: seq<PartyInput>, supervisors: seq<PartyInput>, localLabel: Option<string>) {
    && AllMembers(c, members) && NamesApart(members) && |members| >= 2
    && AllSupervisors(c, supervisors) && NamesApart(supervisors)
    && ParentsGiven(members, supervisors)
    && (localLabel.Some? ==> NameAmong(members, localLabel.value) || NameAmong(supervisors, localLabel.value))
  }

  /** The plan's roster: every member input, and every supervisor input that is not a member too. */
  ghost predicate RosterOfInputs(p: Creation, members: seq<PartyInput>, supervisors: seq<PartyInput>) {
    && (forall l :: l in p.members <==> NameAmong(members, l))
    && (forall i :: 0 <= i < |members| ==>
          && members[i].signing.Some? && members[i].name in p.members
          && p.members[members[i].name] == MemberKeys(members[i].encryption, members[i].signing.value))
    && (forall l :: l in p.supervisors <==> NameAmong(supervisors, l) && !NameAmong(members, l))
    && (forall i :: 0 <= i < |supervisors| && supervisors[i].name in p.supervisors ==>
          p.supervisors[supervisors[i].name] == supervisors[i].encryption)
  }

  lemma MemberNames(c: Checks, parties: seq<PartyInput>)
    requires UniqueMembers(c, parties, map[]).Ok?
    ensures var all := UniqueMembers(c, parties, map[]).value;
      |all| == |parties| && forall l :: l in all <==> NameAmong(parties, l)
  {
    MembersHold(c, parties, map[]);
  }

  lemma SupervisorNames(c: Checks, parties: seq<PartyInput>)
    requires UniqueSupervisors(c, parties, map[]).Ok?
    ensures forall l :: l in UniqueSupervisors(c, parties, map[]).value <==> NameAmong(parties, l)
  {
    SupervisorsHold(c, parties, map[]);
  }

  lemma ParentsAmong(members: map<string, MemberKeys>, others: map<string, Public>, ms: seq<PartyInput>, ss: seq<PartyInput>)
    requires (forall l :: l in members <==> NameAmong(ms, l)) && (forall l :: l in others <==> NameAmong(ss, l))
    ensures ParentsOf(members) <= members.Keys + others.Keys <==> ParentsGiven(ms, ss)
  {
    if ParentsOf(members) <= members.Keys + others.Keys {
      forall i | 0 <= i < |ms| && ParentLabel(ms[i].name).Some?
        ensures NameAmong(ms, ParentLabel(ms[i].name).value) || NameAmong(ss, ParentLabel(ms[i].name).value)
      {
        assert ms[i].name in members;
        assert ParentLabel(ms[i].name).value in ParentsOf(members);
      }
    }
    if ParentsGiven(ms, ss) {
      forall l | l in members && ParentLabel(l).Some? ensures ParentLabel(l).value in members.Keys + others.Keys {
        var i :| 0 <= i < |ms| && ms[i].name == l;
      }
    }
  }

  lemma CreationIff(c: Checks, keyId: Option<int>, title: Option<string>, members: seq<PartyInput>,
                    supervisors: seq<PartyInput>, localLabel: Option<string>, uid: string, d: Draws)
    ensures NewCreation(c, keyId, title, members, supervisors, localLabel, uid, d).Ok?
       <==> CanCreate(c, members, supervisors, localLabel)
  {
    MembersIff(c, members, map[]);
    SupervisorsIff(c, supervisors, map[]);
    var m, s := UniqueMembers(c, members, map[]), UniqueSupervisors(c, supervisors, map[]);
    if m.Ok? && s.Ok? {
      MemberNames(c, members);
      SupervisorNames(c, supervisors);
      ParentsAmong(m.value, s.value, members, supervisors);
    }
  }

  /** A creation can be planned exactly from usable, distinct inputs, at least two of them members, with
  every member's parent given and the creator listed; the plan is for exactly these. */
  lemma CreationExact(c: Checks, keyId: Option<int>, title: Option<string>, members: seq<PartyInput>,
                      supervisors: seq<PartyInput>, localLabel: Option<string>, uid: string, d: Draws)
    ensures NewCreation(c, keyId, title, members, supervisors, localLabel, uid, d).Ok?
       <==> CanCreate(c, members, supervisors, localLabel)
    ensures NewCreation(c, keyId, title, members, supervisors, localLabel, uid, d).Ok? ==>
      var p := NewCreation(c, keyId, title, members, supervisors, localLabel, uid, d).value;
      && p.uid == uid && p.keyId == keyId && p.title == title && p.localLabel == localLabel
      && p.public == PublicOf(d.secret) && p.secret == d.secret && p.salt == d.salt
      && RosterOfInputs(p, members, supervisors)
  {
    CreationIff(c, keyId, title, members, supervisors, localLabel, uid, d);
    if NewCreation(c, keyId, title, members, supervisors, localLabel, uid, d).Ok? {
      MemberNames(c, members);
      SupervisorNames(c, supervisors);
      MembersHold(c, members, map[]);
      SupervisorsHold(c, supervisors, map[]);
    }
  }

  /** No package of a creation can fail to encode: the plan's checks have seen all keys. */
  lemma {:induction false} CreationSucceedsIff(c: Checks, keyId: Option<int>, title: Option<string>, members: seq<PartyInput>,
                            supervisors: seq<PartyInput>, localLabel: Option<string>, uid: string, d: Draws)
    ensures PlanCreate(c, keyId, title, members, supervisors, localLabel, uid, d).Ok?
       <==> CanCreate(c, members, supervisors, localLabel)
  {
    CreationExact(c, keyId, title, members, supervisors, localLabel, uid, d);
    var r := NewCreation(c, keyId, title, members, supervisors, localLabel, uid, d);
    if r.Ok? {
      var t := CreationTerms(r.value);
      var drafts := RosterDrafts(t, Invite, d.secret, d.wraps);
      forall i | 0 <= i < |drafts| ensures !c.weak(drafts[i].recipient) {
        var l := DraftSource(t, Invite, d.secret, d.wraps, drafts[i]);
        RosterUsable(c, r.value, members, supervisors, l);
      }
      PlainPackagesEncode(c, drafts);
    }
  }

  lemma RosterUsable(c: Checks, p: Creation, members: seq<PartyInput>, supervisors: seq<PartyInput>, l: string)
    requires AllMembers(c, members) && AllSupervisors(c, supervisors) && RosterOfInputs(p, members, supervisors)
    ensures l in p.members ==> !c.weak(p.members[l].encryption)
    ensures l in p.supervisors ==> !c.weak(p.supervisors[l])
  {
    if l in p.members {
      var i :| 0 <= i < |members| && members[i].name == l;
      assert MemberInput(c, members[i]);
    }
    if l in p.supervisors {
      var i :| 0 <= i < |supervisors| && supervisors[i].name == l;
      assert SupervisorInput(c, supervisors[i]);
    }
  }

  /** A planned creation commits exactly where its uid is not in use yet and the creator's own key is usable,
  with the planned roster, the creator's row marked, and its sealed secret if it is a member. */
  lemma CommitCreationExact(c: Checks, t: Table, p: Creation, wrapSalt: Salt)
    ensures CommitCreation(c, t, p, wrapSalt).Ok? <==>
      && p.uid !in t && p.members.Keys !! p.supervisors.Keys
      && (p.localLabel.Some? && p.localLabel.value in p.members ==> !c.weak(p.members[p.localLabel.value].encryption))
    ensures CommitCreation(c, t, p, wrapSalt).Ok? ==>
      var after := CommitCreation(c, t, p, wrapSalt).value;
      && OnlyUid(t, after, p.uid)
      && var b := after[p.uid];
         && b.title == p.title && b.keyId == p.keyId && b.generation == 1 && b.public == p.public && b.salt == p.salt
         && !b.destroyed && Rows(b.parties, p.members, p.supervisors, p.localLabel)
         && HoldsSecret(b, p.members, p.localLabel, p.secret)
  {
    if CommitCreation(c, t, p, wrapSalt).Ok? {
      SealedHolds(c, CommitCreation(c, t, p, wrapSalt).value[p.uid], p.members, p.localLabel, wrapSalt, p.secret);
    }
  }

  // ----- importing

  /** The package opens a bridge at a store that does not know it: an invite, or a supervisor's first package. */
  predicate Opening(d: Package) {
    d.kind.Invite? || (d.kind.Supervisor? && d.generation == 1 && d.auth.None?)
  }

  /** The package carries a bridge on to its next generation. */
  predicate Rotating(d: Package) {
    d.kind.Rotate? || (d.kind.Supervisor? && !Opening(d))
  }

  /** The package's roster can be stored and its secret sealed. */
  predicate Storable(c: Checks, d: Package) {
    && RecipientOnRoster(d) && d.members.Keys !! d.supervisors.Keys
    && (d.secret.Some? && d.role.MemberRole? ==> !c.weak(d.recipient))
  }

  /** When an import succeeds: under the recipient's key, an opening package for a uid not in the table, a
  rotation at a live bridge one generation below signed by the stored key, a notice signed by it. */
  ghost predicate CanImport(c: Checks, t: Table, d: Package, encryptionSk: Secret) {
    && d.recipient == PublicOf(encryptionSk) && !d.kind.Other?
    && (Opening(d) ==> d.uid !in t && d.generation >= 1 && Storable(c, d))
    && (Rotating(d) ==>
          && d.uid in t && !t[d.uid].destroyed && d.generation == t[d.uid].generation + 1
          && SignedBy(d, t[d.uid].public) && Storable(c, d))
    && (d.kind.Destroy? ==> d.uid in t && (t[d.uid].destroyed || SignedBy(d, t[d.uid].public)))
  }

  lemma ImportSucceedsIff(c: Checks, t: Table, d: Package, encryptionSk: Secret)
    ensures Import(c, t, d, encryptionSk).Ok? <==> CanImport(c, t, d, encryptionSk)
  {
  }

  /** The bridge a package announces, at the recipient's store. */
  ghost predicate Announced(b: Bridge, d: Package) {
    && !b.destroyed && b.generation == d.generation && b.public == d.public && b.salt == d.salt
    && Rows(b.parties, d.members, d.supervisors, Some(d.recipientLabel))
    && if d.secret.Some? && d.role.MemberRole?
       then HoldsSecret(b, d.members, Some(d.recipientLabel), d.secret.value.1)
       else b.sealed == map[]
  }

  /** Replacing the roster keeps the bridge's own fields, and seals the package's secret to the recipient. */
  lemma ReplaceExact(c: Checks, b: Bridge, d: Package)
    requires ReplaceRoster(c, b, d).Ok? && RecipientOnRoster(d)
    ensures var after := ReplaceRoster(c, b, d).value;
      && after == b.(parties := after.parties, sealed := after.sealed)
      && Rows(after.parties, d.members, d.supervisors, Some(d.recipientLabel))
      && if d.secret.Some? && d.role.MemberRole?
         then HoldsSecret(after, d.members, Some(d.recipientLabel), d.secret.value.1)
         else after.sealed == map[]
  {
  }

  lemma OpeningExact(c: Checks, t: Table, d: Package)
    requires InsertFromInvite(c, t, d).Ok?
    ensures var after := InsertFromInvite(c, t, d).value;
      && OnlyUid(t, after, d.uid) && Announced(after[d.uid], d)
      && after[d.uid].keyId.None? && after[d.uid].title == NonEmpty(d.title)
  {
    ReplaceExact(c, Bridge(NonEmpty(d.title), None, d.generation, d.public, d.salt, false, map[], map[]), d);
  }

  lemma RotatingExact(c: Checks, t: Table, d: Package)
    requires ApplyRotate(c, t, d).Ok?
    ensures var after := ApplyRotate(c, t, d).value;
      && d.uid in t && OnlyUid(t, after, d.uid) && Announced(after[d.uid], d)
      && after[d.uid].keyId == t[d.uid].keyId
      && after[d.uid].title == if d.title == "" then t[d.uid].title else Some(d.title)
  {
    var b := t[d.uid];
    var title := if NonEmpty(d.title).Some? then NonEmpty(d.title) else b.title;
    ReplaceExact(c, b.(generation := d.generation, public := d.public, salt := d.salt, title := title), d);
  }

  /** What an import leaves behind: the announced bridge with the recipient's row marked and, for a member, its
  sealed secret; or the mark of its end. */
  lemma ImportExact(c: Checks, t: Table, d: Package, encryptionSk: Secret)
    requires Import(c, t, d, encryptionSk).Ok?
    ensures var after := Import(c, t, d, encryptionSk).value;
      && OnlyUid(t, after, d.uid)
      && (d.kind.Destroy? ==> after[d.uid] == if t[d.uid].destroyed then t[d.uid]
                                               else t[d.uid].(destroyed := true, sealed := map[]))
      && (!d.kind.Destroy? ==> Announced(after[d.uid], d))
      && (Opening(d) ==> after[d.uid].keyId.None? && after[d.uid].title == NonEmpty(d.title))
      && (Rotating(d) ==>
            && after[d.uid].keyId == t[d.uid].keyId
            && after[d.uid].title == if d.title == "" then t[d.uid].title else Some(d.title))
  {
    if Opening(d) {
      OpeningExact(c, t, d);
    } else if Rotating(d) {
      RotatingExact(c, t, d);
    }
  }

  // ----- the coordinator's drop

  /** A drop takes the label and its sealed row out of a live bridge, and ends the bridge exactly when fewer
  than two other members are left; a destroyed bridge stays as it is. */
  lemma DropExact(t: Table, uid: string, removed: string)
    ensures DropMember(t, uid, removed).Ok? <==> uid in t
    ensures uid in t ==>
      var after := DropMember(t, uid, removed).value;
      && OnlyUid(t, after, uid)
      && if t[uid].destroyed then after[uid] == t[uid]
         else
           var ends := !TwoRemain(t[uid].parties, removed);
           after[uid] == t[uid].(parties := t[uid].parties - {removed}, destroyed := ends,
                                 sealed := if ends then map[] else t[uid].sealed - {removed})
  {
    if uid in t {
      var parties := t[uid].parties;
      TwoOf(LiveMembers(parties) - {removed});
      assert forall l :: l in LiveMembers(parties) - {removed} <==> Remains(parties, removed, l);
    }
  }

  // ----- signing and verifying

  /** The local registry has no signing key for the label, or exactly the roster's, and it is a valid one. */
  predicate NoConflict(c: Checks, registry: Registry, name: string, signing: Public) {
    name !in registry || registry[name] == [] || (registry[name] == [signing] && c.verifying(signing))
  }

  lemma RegistryAgreesIff(c: Checks, registry: Registry, name: string, signing: Public)
    ensures RegistryAgrees(c, registry, name, signing).Ok? <==> NoConflict(c, registry, name, signing)
  {
    if name in registry && registry[name] != [] {
      assert registry[name] == [signing] <==> |registry[name]| == 1 && registry[name][0] == signing;
    }
  }

  /** A member signs exactly at a live bridge whose sealed secret its encryption key opens, with its roster's
  signing key and no conflict in the registry; the artifact holds both signatures over the statement. */
  lemma SignExact(c: Checks, t: Table, registry: Registry, uid: string, localLabel: string, encryptionSk: Secret,
                  signingSk: Secret, signatureSalt: Salt, message: string)
    ensures var r := SignMessage(c, t, registry, uid, localLabel, encryptionSk, signingSk, signatureSalt, message);
      && (r.Ok? <==>
            && uid in t && !t[uid].destroyed && IsMember(t[uid], localLabel) && Opens(t[uid], localLabel, encryptionSk)
            && t[uid].parties[localLabel].encryption == PublicOf(encryptionSk)
            && t[uid].parties[localLabel].signing == PublicOf(signingSk)
            && NoConflict(c, registry, localLabel, PublicOf(signingSk)))
      && (r.Ok? ==>
            var b, over := t[uid], OfStatement(Statement(uid, t[uid].generation, t[uid].salt, signatureSalt, localLabel,
                                                         PublicOf(signingSk), message));
            r.value == Artifact(uid, b.generation, b.salt, signatureSalt, localLabel, PublicOf(signingSk),
                                Signature(PublicOf(b.sealed[localLabel].box.secret), over),
                                Signature(PublicOf(signingSk), over)))
  {
    RegistryAgreesIff(c, registry, localLabel, PublicOf(signingSk));
  }

  /** What an artifact's two signatures have to cover. */
  function StatementIn(a: Artifact, message: string): Signed {
    OfStatement(Statement(a.uid, a.generation, a.bridgeSalt, a.signatureSalt, a.signerLabel, a.signer, message))
  }

  /** The artifact is signed over this message by this bridge's key and by the roster's key for its signer. */
  predicate Genuine(b: Bridge, uid: string, message: string, a: Artifact) {
    && a.uid == uid && a.generation == b.generation && a.bridgeSalt == b.salt
    && IsMember(b, a.signerLabel) && a.signer == b.parties[a.signerLabel].signing
    && a.bridgeSignature == Signature(b.public, StatementIn(a, message))
    && a.personalSignature == Signature(a.signer, StatementIn(a, message))
  }

  /** An artifact is accepted exactly at a live bridge, by one of its members, if it is genuine there and the
  registry does not conflict. */
  lemma VerifyExact(c: Checks, t: Table, registry: Registry, uid: string, verifier: string, message: string, a: Artifact)
    ensures VerifyMessage(c, t, registry, uid, verifier, message, a) == Ok(()) <==>
      && uid in t && !t[uid].destroyed && IsMember(t[uid], verifier)
      && Genuine(t[uid], uid, message, a) && NoConflict(c, registry, a.signerLabel, a.signer)
  {
    if uid in t && IsMember(t[uid], a.signerLabel) {
      RegistryAgreesIff(c, registry, a.signerLabel, t[uid].parties[a.signerLabel].signing);
    }
  }

  /** The signatures of one artifact are never accepted for anything but what they were made over: another
  message, signer, salt or generation, or another of its two keys, is refused at every store. */
  lemma TamperedIsRefused(c: Checks, t: Table, registry: Registry, uid: string, verifier: string, message: string, a: Artifact,
                          t': Table, registry': Registry, uid': string, verifier': string, message': string, a': Artifact)
    requires VerifyMessage(c, t, registry, uid, verifier, message, a) == Ok(())
    requires VerifyMessage(c, t', registry', uid', verifier', message', a') == Ok(())
    requires a'.bridgeSignature == a.bridgeSignature || a'.personalSignature == a.personalSignature
    ensures message' == message && uid' == uid
    ensures a'.(bridgeSignature := a.bridgeSignature, personalSignature := a.personalSignature) == a
    ensures a'.bridgeSignature == a.bridgeSignature ==> a' == a && t'[uid'].public == t[uid].public
  {
    VerifyExact(c, t, registry, uid, verifier, message, a);
    VerifyExact(c, t', registry', uid', verifier', message', a');
  }
}
