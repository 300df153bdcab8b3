/** A store's bridge tables as an object whose methods update them in place, each proved to do
exactly what the function of the same name in `Bridges` says. */
module BridgeTable {
  import opened Errors
  import opened Strings
  import opened Bridges

  // ----- sorted iteration

  /** The keys of a `BTreeMap`, as it iterates over them. */
  method ListSorted(s: set<string>) returns (q: seq<string>)
    ensures q == Sorted(s)
  {
    q := [];
    var todo := s;
    while todo != {}
      invariant todo <= s && Ascending(q) && forall x :: x in q <==> x in s - todo
      invariant forall x, y :: x in q && y in todo ==> Less(x, y)
      decreases |todo|
    {
      LeastExists(todo);
      assert forall x :: IsLeast(todo, x) <==> x in todo && forall y :: y in todo && y != x ==> Less(x, y);
      var least :| least in todo && forall y :: y in todo && y != least ==> Less(least, y);
      q := q + [least];
      todo := todo - {least};
    }
    AscendingUnique(q, Sorted(s));
  }

  ghost predicate IsLeast(s: set<string>, x: string) {
    x in s && forall y :: y in s && y != x ==> Less(x, y)
  }

  lemma {:induction false} LesserOf(s: set<string>, a: string, b: string)
    requires a in s && IsLeast(s - {a}, b)
    ensures IsLeast(s, if Less(a, b) then a else b)
  {
    LessTotal(a, b);
    if Less(a, b) {
      forall y | y in s && y != a ensures Less(a, y) {
        if y != b {
          LessTransitive(a, b, y);
        }
      }
    }
  }

  lemma {:induction false} LeastExists(s: set<string>)
    requires s != {}
    ensures exists x :: IsLeast(s, x)
  {
    var a :| a in s;
    if s - {a} == {} {
      assert s == (s - {a}) + {a};
      assert IsLeast(s, a);
    } else {
      LeastExists(s - {a});
      var b :| IsLeast(s - {a}, b);
      LesserOf(s, a, b);
    }
  }

  // ----- building rosters

  /** `unique_members` */
  method CollectMembers(c: Checks, parties: seq<PartyInput>) returns (r: Result<map<string, MemberKeys>>)
    ensures r == UniqueMembers(c, parties, map[])
  {
    var done: map<string, MemberKeys> := map[];
    var i := 0;
    while i < |parties|
      invariant 0 <= i <= |parties| && UniqueMembers(c, parties, map[]) == UniqueMembers(c, parties[i..], done)
    {
      var party := parties[i];
      assert parties[i..][0] == party && parties[i..][1..] == parties[i + 1..];
      if party.name == "" {
        return Err(InvalidBridge);
      }
      if c.weak(party.encryption) {
        return Err(InvalidPublicKey);
      }
      if party.signing.None? || !c.verifying(party.signing.value) {
        return Err(InvalidPublicKey);
      }
      if party.name in done {
        return Err(DuplicateNodeLabel);
      }
      done := done[party.name := MemberKeys(party.encryption, party.signing.value)];
      i := i + 1;
    }
    return Ok(done);
  }

  /** `unique_supervisors` */
  method CollectSupervisors(c: Checks, parties: seq<PartyInput>) returns (r: Result<map<string, Public>>)
    ensures r == UniqueSupervisors(c, parties, map[])
  {
    var done: map<string, Public> := map[];
    var i := 0;
    while i < |parties|
      invariant 0 <= i <= |parties| && UniqueSupervisors(c, parties, map[]) == UniqueSupervisors(c, parties[i..], done)
    {
      var party := parties[i];
      assert parties[i..][0] == party && parties[i..][1..] == parties[i + 1..];
      if party.name == "" {
        return Err(InvalidBridge);
      }
      if c.weak(party.encryption) {
        return Err(InvalidPublicKey);
      }
      if party.name in done {
        return Err(DuplicateNodeLabel);
      }
      done := done[party.name := party.encryption];
      i := i + 1;
    }
    return Ok(done);
  }

  /** `fill_implied_supervisors` */
  method FillImpliedSupervisors(members: map<string, MemberKeys>, supervisors: map<string, Public>)
    returns (r: Result<map<string, Public>>)
    ensures r == FillImplied(members, supervisors)
  {
    var todo := members.Keys;
    while todo != {}
      invariant todo <= members.Keys
      invariant forall l :: l in members && l !in todo && ParentLabel(l).Some? ==>
        ParentLabel(l).value in members.Keys + supervisors.Keys
      decreases |todo|
    {
      var member :| member in todo;
      todo := todo - {member};
      var parent := ParentLabel(member);
      if parent.Some? && parent.value !in members && parent.value !in supervisors {
        assert parent.value in ParentsOf(members);
        return Err(NodeNotFound);
      }
    }
    return Ok(map l | l in supervisors && l !in members :: supervisors[l]);
  }

  /** `remaining_members` */
  method CollectRemaining(parties: map<string, Party>, removed: string) returns (members: map<string, MemberKeys>)
    ensures members == RemainingMembers(parties, removed)
  {
    members := map[];
    var todo := parties.Keys;
    while todo != {}
      invariant todo <= parties.Keys
      invariant members == map l | l in parties && l !in todo && parties[l].MemberParty? && l != removed ::
        MemberKeys(parties[l].encryption, parties[l].signing)
      decreases |todo|
    {
      var name :| name in todo;
      todo := todo - {name};
      if parties[name].SupervisorParty? || name == removed {
        continue;
      }
      members := members[name := MemberKeys(parties[name].encryption, parties[name].signing)];
    }
  }

  lemma NeededParentIs(members: map<string, MemberKeys>, p: string)
    ensures p in NeededParents(members) <==> p !in members && exists l :: l in members && ParentLabel(l) == Some(p)
  {
    if l :| l in members && ParentLabel(l) == Some(p) {
      assert ParentLabel(l).value in ParentsOf(members);
    }
    if p in ParentsOf(members) {
      var l :| l in members && ParentLabel(l).Some? && ParentLabel(l).value == p;
      assert ParentLabel(l) == Some(p);
    }
  }

  /** The first loop of `supervisor_pubs_for`. */
  method CollectNeeded(members: map<string, MemberKeys>) returns (needed: set<string>)
    ensures needed == NeededParents(members)
  {
    needed := {};
    var todo := members.Keys;
    while todo != {}
      invariant todo <= members.Keys
      invariant forall p :: p in needed <==>
        p !in members && exists l :: l in members && l !in todo && ParentLabel(l) == Some(p)
      decreases |todo|
    {
      var member :| member in todo;
      todo := todo - {member};
      var parent := ParentLabel(member);
      if parent.Some? && parent.value !in members {
        needed := needed + {parent.value};
      }
    }
    forall p ensures p in needed <==> p in NeededParents(members) {
      NeededParentIs(members, p);
    }
  }

  /** `supervisor_pubs_for` */
  method SupervisorPubsFor(members: map<string, MemberKeys>, parties: map<string, Party>) returns (pubs: map<string, Public>)
    ensures pubs == SupervisorsFor(members, parties)
  {
    var needed := CollectNeeded(members);
    pubs := map[];
    var previous := parties.Keys;
    while previous != {}
      invariant previous <= parties.Keys
      invariant pubs == map l | l in parties && l !in previous && l in needed :: parties[l].encryption
      decreases |previous|
    {
      var name :| name in previous;
      previous := previous - {name};
      if name in needed {
        pubs := pubs[name := parties[name].encryption];
      }
    }
  }

  /** `insert_member_parties` */
  method InsertMembers(members: map<string, MemberKeys>, localLabel: Option<string>) returns (rows: map<string, Party>)
    ensures rows == PartiesOf(members, map[], localLabel)
  {
    rows := map[];
    var todo := members.Keys;
    while todo != {}
      invariant todo <= members.Keys
      invariant rows == map l | l in members && l !in todo ::
        MemberParty(members[l].encryption, members[l].signing, localLabel == Some(l))
      decreases |todo|
    {
      var name :| name in todo;
      todo := todo - {name};
      rows := rows[name := MemberParty(members[name].encryption, members[name].signing, localLabel == Some(name))];
    }
  }

  /** `insert_supervisor_parties`: a label that is on the roster already breaks the primary key. */
  method InsertSupervisors(rows: map<string, Party>, supervisors: map<string, Public>, localLabel: Option<string>)
    returns (r: Result<map<string, Party>>)
    ensures r.Err? ==> r.error == Db && !(rows.Keys !! supervisors.Keys)
    ensures r.Ok? ==> rows.Keys !! supervisors.Keys && forall l :: l in r.value <==> l in rows || l in supervisors
    ensures r.Ok? ==> forall l :: l in rows ==> r.value[l] == rows[l]
    ensures r.Ok? ==> forall l :: l in supervisors ==> r.value[l] == SupervisorParty(supervisors[l], localLabel == Some(l))
  {
    var all := rows;
    var todo := supervisors.Keys;
    while todo != {}
      invariant forall l :: l in todo ==> l in supervisors
      invariant forall l :: l in supervisors && l !in todo ==> l !in rows
      invariant forall l :: l in all <==> l in rows || (l in supervisors && l !in todo)
      invariant forall l :: l in rows ==> all[l] == rows[l]
      invariant forall l :: l in supervisors && l !in todo ==> all[l] == SupervisorParty(supervisors[l], localLabel == Some(l))
      decreases |todo|
    {
      var name :| name in todo;
      todo := todo - {name};
      if name in all {
        assert name in rows && name in supervisors;
        return Err(Db);
      }
      all := all[name := SupervisorParty(supervisors[name], localLabel == Some(name))];
    }
    return Ok(all);
  }

  method InsertParties(members: map<string, MemberKeys>, supervisors: map<string, Public>, localLabel: Option<string>)
    returns (r: Result<map<string, Party>>)
    ensures r == if members.Keys !! supervisors.Keys then Ok(PartiesOf(members, supervisors, localLabel)) else Err(Db)
  {
    var rows := InsertMembers(members, localLabel);
    r := InsertSupervisors(rows, supervisors, localLabel);
    assert r.Ok? ==> r.value == PartiesOf(members, supervisors, localLabel);
  }

  // ----- building packages

  /** The packages so far, followed by the rest if it encodes. */
  function Continue(done: seq<Package>, rest: Result<seq<Package>>): Result<seq<Package>> {
    match rest
    case Ok(more) => Ok(done + more)
    case Err(e) => Err(e)
  }

  /** Encoding the next draft. */
  lemma {:induction false} EncodeNext(c: Checks, drafts: seq<Package>, signer: Option<Secret>, done: seq<Package>)
    requires drafts != []
    ensures Continue(done, EncodeAll(c, drafts, signer)) == match Encode(c, drafts[0], signer)
      case Err(e) => Err(e)
      case Ok(p) => Continue(done + [p], EncodeAll(c, drafts[1..], signer))
  {
    var p, rest := Encode(c, drafts[0], signer), EncodeAll(c, drafts[1..], signer);
    if p.Ok? && rest.Ok? {
      assert done + ([p.value] + rest.value) == (done + [p.value]) + rest.value;
    }
  }

  lemma {:induction false} EncodeAllSplit(c: Checks, a: seq<Package>, b: seq<Package>, signer: Option<Secret>)
    ensures EncodeAll(c, a + b, signer) == match EncodeAll(c, a, signer)
      case Err(e) => Err(e)
      case Ok(done) => Continue(done, EncodeAll(c, b, signer))
  {
    if a == [] {
      assert a + b == b;
      assert EncodeAll(c, b, signer).Ok? ==> [] + EncodeAll(c, b, signer).value == EncodeAll(c, b, signer).value;
    } else {
      assert (a + b)[1..] == a[1..] + b;
      EncodeAllSplit(c, a[1..], b, signer);
      var p, x, y := Encode(c, a[0], signer), EncodeAll(c, a[1..], signer), EncodeAll(c, b, signer);
      if p.Ok? && x.Ok? && y.Ok? {
        assert [p.value] + (x.value + y.value) == ([p.value] + x.value) + y.value;
      }
    }
  }

  lemma {:induction false} MemberNext(c: Checks, t: Terms, kind: Kind, secret: Secret, wraps: string -> Salt,
                                      signer: Option<Secret>,
                   i: nat, done: seq<Package>)
    requires i < |Sorted(t.members.Keys)|
    ensures Sorted(t.members.Keys)[i] in t.members
    ensures var drafts := MemberDrafts(t, kind, secret, wraps);
      Continue(done, EncodeAll(c, drafts[i..], signer)) ==
        match Encode(c, MemberDraft(t, kind, Sorted(t.members.Keys)[i], secret, wraps), signer)
        case Err(e) => Err(e)
        case Ok(p) => Continue(done + [p], EncodeAll(c, drafts[i + 1..], signer))
  {
    var drafts, ms := MemberDrafts(t, kind, secret, wraps), Sorted(t.members.Keys);
    assert ms[i] in ms;
    EncodeNext(c, drafts[i..], signer, done);
    assert drafts[i..][0] == drafts[i] && drafts[i..][1..] == drafts[i + 1..];
  }

  /** The members' loop of `packages_for_roster`. */
  method MemberPackages(c: Checks, t: Terms, kind: Kind, secret: Secret, wraps: string -> Salt, signer: Option<Secret>)
    returns (r: Result<seq<Package>>)
    ensures r == EncodeAll(c, MemberDrafts(t, kind, secret, wraps), signer)
  {
    ghost var drafts := MemberDrafts(t, kind, secret, wraps);
    var packages: seq<Package> := [];
    var ms := ListSorted(t.members.Keys);
    var i := 0;
    assert drafts[0..] == drafts;
    StartsEmpty(EncodeAll(c, drafts, signer));
    while i < |ms|
      invariant 0 <= i <= |ms| == |drafts|
      invariant EncodeAll(c, drafts, signer) == Continue(packages, EncodeAll(c, drafts[i..], signer))
    {
      MemberNext(c, t, kind, secret, wraps, signer, i, packages);
      var p :- Encode(c, MemberDraft(t, kind, ms[i], secret, wraps), signer);
      packages := packages + [p];
      i := i + 1;
    }
    assert drafts[i..] == [] && packages + [] == packages;
    return Ok(packages);
  }

  lemma StartsEmpty(r: Result<seq<Package>>)
    ensures Continue([], r) == r
  {
    assert r.Ok? ==> [] + r.value == r.value;
  }

  lemma {:induction false} SupervisorNext(c: Checks, t: Terms, signer: Option<Secret>, i: nat, done: seq<Package>)
    requires i < |SupervisorDrafts(t)|
    ensures Continue(done, EncodeAll(c, SupervisorDrafts(t)[i..], signer)) == match Encode(c, SupervisorDrafts(t)[i], signer)
      case Err(e) => Err(e)
      case Ok(p) => Continue(done + [p], EncodeAll(c, SupervisorDrafts(t)[i + 1..], signer))
  {
    var drafts := SupervisorDrafts(t);
    EncodeNext(c, drafts[i..], signer, done);
    assert drafts[i..][0] == drafts[i] && drafts[i..][1..] == drafts[i + 1..];
  }

  /** The supervisors' loop of `packages_for_roster`. */
  method SupervisorPackages(c: Checks, t: Terms, signer: Option<Secret>) returns (r: Result<seq<Package>>)
    ensures r == EncodeAll(c, SupervisorDrafts(t), signer)
  {
    ghost var drafts := SupervisorDrafts(t);
    var packages: seq<Package> := [];
    var ss := ListSorted(t.supervisors.Keys);
    var i := 0;
    assert drafts[0..] == drafts;
    StartsEmpty(EncodeAll(c, drafts, signer));
    while i < |ss|
      invariant 0 <= i <= |ss|
      invariant EncodeAll(c, drafts, signer) == Continue(packages, EncodeAll(c, drafts[i..], signer))
    {
      assert ss[i] in ss;
      SupervisorNext(c, t, signer, i, packages);
      var p :- Encode(c, SupervisorDraft(t, ss[i]), signer);
      packages := packages + [p];
      i := i + 1;
    }
    assert drafts[i..] == [] && packages + [] == packages;
    return Ok(packages);
  }

  /** `packages_for_roster` */
  method PackagesForRoster(c: Checks, t: Terms, kind: Kind, secret: Secret, wraps: string -> Salt, signer: Option<Secret>)
    returns (r: Result<seq<Package>>)
    ensures r == EncodeAll(c, RosterDrafts(t, kind, secret, wraps), signer)
  {
    EncodeAllSplit(c, MemberDrafts(t, kind, secret, wraps), SupervisorDrafts(t), signer);
    var members :- MemberPackages(c, t, kind, secret, wraps, signer);
    var supervisors :- SupervisorPackages(c, t, signer);
    return Ok(members + supervisors);
  }

  /** The parties in the order `get` lists them. */
  method ListParties(parties: map<string, Party>) returns (order: seq<string>)
    ensures order == PartyOrder(parties)
  {
    var ms := ListSorted(set l | l in parties && parties[l].MemberParty?);
    var ss := ListSorted(set l | l in parties && parties[l].SupervisorParty?);
    order := ms + ss;
  }

  /** What the rest of the notices loop adds. */
  lemma {:induction false} NoticeNext(c: Checks, t: Terms, order: seq<string>, parties: map<string, Party>, kept: set<string>,
                   signer: Option<Secret>, done: seq<Package>)
    requires order != [] && forall l :: l in order ==> l in parties
    ensures order[0] in parties
    ensures var drafts := DestroyDrafts(t, order, parties, kept); var rest := DestroyDrafts(t, order[1..], parties, kept);
      Continue(done, EncodeAll(c, drafts, signer)) ==
        if order[0] in kept then Continue(done, EncodeAll(c, rest, signer))
        else match Encode(c, DestroyDraft(t, order[0], parties[order[0]]), signer)
          case Err(e) => Err(e)
          case Ok(p) => Continue(done + [p], EncodeAll(c, rest, signer))
  {
    assert order[0] in order;
    var drafts, rest := DestroyDrafts(t, order, parties, kept), DestroyDrafts(t, order[1..], parties, kept);
    if order[0] in kept {
      assert drafts == rest;
    } else {
      assert drafts[0] == DestroyDraft(t, order[0], parties[order[0]]) && drafts[1..] == rest;
      EncodeNext(c, drafts, signer, done);
    }
  }

  /** The loop that sends destroy notices to every party not on the new roster. */
  method DestroyNotices(c: Checks, t: Terms, parties: map<string, Party>, kept: set<string>, signer: Secret)
    returns (r: Result<seq<Package>>)
    ensures r == EncodeAll(c, DestroyDrafts(t, PartyOrder(parties), parties, kept), Some(signer))
  {
    var order := ListParties(parties);
    ghost var all := EncodeAll(c, DestroyDrafts(t, order, parties, kept), Some(signer));
    var packages: seq<Package> := [];
    StartsEmpty(all);
    var i := 0;
    assert order[0..] == order;
    while i < |order|
      invariant 0 <= i <= |order| && forall l :: l in order[i..] ==> l in parties
      invariant all == Continue(packages, EncodeAll(c, DestroyDrafts(t, order[i..], parties, kept), Some(signer)))
    {
      NoticeNext(c, t, order[i..], parties, kept, Some(signer), packages);
      assert order[i..][0] == order[i] && order[i..][1..] == order[i + 1..];
      if order[i] !in kept {
        var p :- Encode(c, DestroyDraft(t, order[i], parties[order[i]]), Some(signer));
        packages := packages + [p];
      }
      i := i + 1;
    }
    assert order[i..] == [] && packages + [] == packages;
    return Ok(packages);
  }

  /** `plan_create` */
  method PlanNewBridge(c: Checks, keyId: Option<int>, title: Option<string>, memberInputs: seq<PartyInput>,
                       supervisorInputs: seq<PartyInput>, localLabel: Option<string>, uid: string, d: Draws)
    returns (r: Result<(Creation, seq<Package>)>)
    ensures r == PlanCreate(c, keyId, title, memberInputs, supervisorInputs, localLabel, uid, d)
  {
    var members :- CollectMembers(c, memberInputs);
    if |members| < 2 {
      return Err(TooFewBridgeMembers);
    }
    var given :- CollectSupervisors(c, supervisorInputs);
    var supervisors :- FillImpliedSupervisors(members, given);
    if localLabel.Some? && localLabel.value !in members && localLabel.value !in supervisors {
      return Err(NotBridgeMember);
    }
    var plan := Creation(uid, keyId, title, PublicOf(d.secret), d.salt, members, supervisors, localLabel, d.secret);
    var packages :- PackagesForRoster(c, CreationTerms(plan), Invite, d.secret, d.wraps, None);
    return Ok((plan, packages));
  }

  method OldRoster(b: Bridge, uid: string, removed: string) returns (was: Terms)
    ensures was == OldTerms(b, uid, removed)
  {
    var members := CollectRemaining(b.parties, removed);
    var supervisors := SupervisorPubsFor(members, b.parties);
    was := Terms(uid, b.generation, TitleText(b.title), b.public, b.salt, members, supervisors, removed);
  }

  /** The packages of a removal from a live bridge, and the plan to commit after they are written. */
  method PlanWithout(c: Checks, b: Bridge, uid: string, removed: string, localLabel: string, secret: Secret, d: Draws)
    returns (r: Result<(Removal, seq<Package>)>)
    ensures r == WithoutMember(c, b, uid, removed, localLabel, secret, d)
  {
    var was := OldRoster(b, uid, removed);
    if |was.members| < 2 {
      var notices :- DestroyNotices(c, was, b.parties, {}, secret);
      return Ok((DestroyPlan(uid, removed, b.generation), notices));
    }
    r := PlanRotation(c, b, uid, removed, localLabel, was, secret, d);
  }

  method PlanRotation(c: Checks, b: Bridge, uid: string, removed: string, localLabel: string, was: Terms,
                      secret: Secret, d: Draws) returns (r: Result<(Removal, seq<Package>)>)
    requires was == OldTerms(b, uid, removed)
    ensures r == RotateRoster(c, b, uid, removed, localLabel, secret, d)
  {
    var next := was.(generation := b.generation + 1, public := PublicOf(d.secret), salt := d.salt);
    assert next == NewTerms(b, uid, removed, d);
    var packages :- PackagesForRoster(c, next, Rotate, d.secret, d.wraps, Some(secret));
    var notices :- DestroyNotices(c, was, b.parties, was.members.Keys + was.supervisors.Keys, secret);
    return Ok((RotatePlan(uid, removed, localLabel, b.generation, next.generation, next.public, next.salt,
                          next.members, next.supervisors, d.secret),
               packages + notices));
  }

  // ----- the tables

  class BridgeStore {
    var bridges: Table
    var registry: Registry

    constructor (known: Registry)
      ensures bridges == map[] && registry == known
    {
      bridges, registry := map[], known;
    }

    /** `commit_planned_creation` */
    method CommitPlannedCreation(c: Checks, p: Creation, wrapSalt: Salt) returns (r: Result<()>)
      modifies `bridges
      ensures match CommitCreation(c, old(bridges), p, wrapSalt)
        case Err(e) => r == Err(e) && bridges == old(bridges)
        case Ok(t) => r == Ok(()) && bridges == t
    {
      if p.uid in bridges {
        return Err(Db);
      }
      var parties :- InsertParties(p.members, p.supervisors, p.localLabel);
      var sealed :- SealLocal(c, p.members, p.localLabel, wrapSalt, p.secret);
      bridges := bridges[p.uid := Bridge(p.title, p.keyId, 1, p.public, p.salt, false, parties, sealed)];
      return Ok(());
    }

    /** `replace_roster_and_secret` */
    method ReplaceRosterAndSecret(c: Checks, b: Bridge, d: Package) returns (r: Result<Bridge>)
      ensures r == ReplaceRoster(c, b, d)
    {
      var parties :- InsertParties(d.members, d.supervisors, Some(d.recipientLabel));
      if d.secret.None? || d.role.SupervisorRole? {
        return Ok(b.(parties := parties, sealed := map[]));
      }
      if d.recipientLabel !in d.members {
        return Err(Db);
      }
      if c.weak(d.recipient) {
        return Err(InvalidPublicKey);
      }
      var (wrapSalt, secret) := d.secret.value;
      var row := SealedRow(wrapSalt, Box(d.recipient, wrapSalt, secret));
      return Ok(b.(parties := parties, sealed := map[d.recipientLabel := row]));
    }

    method InsertInvite(c: Checks, d: Package) returns (r: Result<()>)
      modifies `bridges
      ensures match InsertFromInvite(c, old(bridges), d)
        case Err(e) => r == Err(e) && bridges == old(bridges)
        case Ok(t) => r == Ok(()) && bridges == t
    {
      if !RecipientOnRoster(d) {
        return Err(InvalidBridgePackage);
      }
      if d.uid in bridges {
        return Err(InvalidBridge);
      }
      if d.generation == 0 {
        return Err(Db);
      }
      var bare := Bridge(NonEmpty(d.title), None, d.generation, d.public, d.salt, false, map[], map[]);
      var b :- ReplaceRosterAndSecret(c, bare, d);
      bridges := bridges[d.uid := b];
      return Ok(());
    }

    /** `apply_rotate` */
    method RotateBridge(c: Checks, d: Package) returns (r: Result<()>)
      modifies `bridges
      ensures match ApplyRotate(c, old(bridges), d)
        case Err(e) => r == Err(e) && bridges == old(bridges)
        case Ok(t) => r == Ok(()) && bridges == t
    {
      if !RecipientOnRoster(d) {
        return Err(InvalidBridgePackage);
      }
      if d.uid !in bridges {
        return Err(BridgeNotFound);
      }
      var b := bridges[d.uid];
      if b.destroyed {
        return Err(BridgeDestroyed);
      }
      if d.generation != b.generation + 1 {
        return Err(BridgeGenerationMismatch);
      }
      var _ :- VerifyUpdate(d, b.public);
      var title := if NonEmpty(d.title).Some? then NonEmpty(d.title) else b.title;
      var moved := b.(generation := d.generation, public := d.public, salt := d.salt, title := title);
      var next :- ReplaceRosterAndSecret(c, moved, d);
      bridges := bridges[d.uid := next];
      return Ok(());
    }

    /** `apply_destroy` */
    method DestroyBridge(d: Package) returns (r: Result<()>)
      modifies `bridges
      ensures match ApplyDestroy(old(bridges), d)
        case Err(e) => r == Err(e) && bridges == old(bridges)
        case Ok(t) => r == Ok(()) && bridges == t
    {
      if d.uid !in bridges {
        return Err(BridgeNotFound);
      }
      if bridges[d.uid].destroyed {
        return Ok(());
      }
      var _ :- VerifyUpdate(d, bridges[d.uid].public);
      bridges := bridges[d.uid := bridges[d.uid].(destroyed := true, sealed := map[])];
      return Ok(());
    }

    /** `import_package` */
    method ImportPackage(c: Checks, d: Package, encryptionSk: Secret) returns (r: Result<Bridge>)
      modifies `bridges
      ensures match Import(c, old(bridges), d, encryptionSk)
        case Err(e) => r == Err(e) && bridges == old(bridges)
        case Ok(t) => bridges == t && d.uid in t && r == Ok(t[d.uid])
    {
      if d.recipient != PublicOf(encryptionSk) {
        return Err(InvalidBridgePackage);
      }
      match d.kind {
        case Invite => var _ :- InsertInvite(c, d);
        case Supervisor =>
          if d.generation == 1 && d.auth.None? {
            var _ :- InsertInvite(c, d);
          } else {
            var _ :- RotateBridge(c, d);
          }
        case Rotate => var _ :- RotateBridge(c, d);
        case Destroy => var _ :- DestroyBridge(d);
        case Other(_) => return Err(InvalidBridgePackage);
      }
      return Ok(bridges[d.uid]);
    }

    /** `plan_remove_member` */
    method PlanRemoveMember(c: Checks, uid: string, removed: string, localLabel: string, encryptionSk: Secret, d: Draws)
      returns (r: Result<(Removal, seq<Package>)>)
      ensures r == PlanRemoval(c, bridges, uid, removed, localLabel, encryptionSk, d)
    {
      var secret :- MayRemove(bridges, uid, removed, localLabel, encryptionSk);
      r := PlanWithout(c, bridges[uid], uid, removed, localLabel, secret, d);
    }

    /** `commit_planned_removal` */
    method CommitPlannedRemoval(c: Checks, p: Removal, wrapSalt: Salt) returns (r: Result<()>)
      modifies `bridges
      ensures match CommitRemoval(c, old(bridges), p, wrapSalt)
        case Err(e) => r == Err(e) && bridges == old(bridges)
        case Ok(t) => r == Ok(()) && bridges == t
    {
      if p.uid !in bridges || bridges[p.uid].generation != p.expected || bridges[p.uid].destroyed {
        return Err(BridgeGenerationMismatch);
      }
      if p.DestroyPlan? {
        bridges := bridges[p.uid := bridges[p.uid].(destroyed := true, sealed := map[])];
        return Ok(());
      }
      var parties :- InsertParties(p.members, p.supervisors, Some(p.localLabel));
      var sealed :- SealLocal(c, p.members, Some(p.localLabel), wrapSalt, p.secret);
      bridges := bridges[p.uid := bridges[p.uid].(generation := p.generation, public := p.public, salt := p.salt,
                                                  parties := parties, sealed := sealed)];
      return Ok(());
    }

    /** `drop_member_on_coordinator` */
    method DropMemberOnCoordinator(uid: string, removed: string) returns (r: Result<()>)
      modifies `bridges
      ensures match DropMember(old(bridges), uid, removed)
        case Err(e) => r == Err(e) && bridges == old(bridges)
        case Ok(t) => r == Ok(()) && bridges == t
    {
      if uid !in bridges {
        return Err(BridgeNotFound);
      }
      var b := bridges[uid];
      if b.destroyed {
        return Ok(());
      }
      var remaining := LiveMembers(b.parties) - {removed};
      b := b.(parties := b.parties - {removed}, sealed := b.sealed - {removed});
      if |remaining| < 2 {
        b := b.(destroyed := true, sealed := map[]);
      }
      bridges := bridges[uid := b];
      return Ok(());
    }
  }
}
