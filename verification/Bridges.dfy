/** Private sign bridges (`src/private_bridge.rs`): planning, importing, rotating, destroying,
signing and verifying, each as a function of one store's tables. */
module Bridges {
  import opened Errors
  import opened Strings

  // ----- ideal cryptography

  /** Secret keys and their public halves, for sealing and for signing. */
  datatype Secret = Secret(id: nat)
  datatype Public = Public(id: nat)

  function PublicOf(s: Secret): Public { Public(s.id) }

  type Salt = nat

  datatype Kind = Invite | Rotate | Destroy | Supervisor | Other(code: nat)
  datatype Role = MemberRole | SupervisorRole

  datatype MemberKeys = MemberKeys(encryption: Public, signing: Public)

  /** What an update signature covers: `PackageCodec` shows that the signed bytes determine it. */
  datatype Update = Update(uid: string, generation: nat, kind: Kind, public: Public, salt: Salt, recipientLabel: string,
                           removedLabel: string, members: map<string, MemberKeys>, supervisors: map<string, Public>)

  /** What a bridge signature covers. */
  datatype Statement = Statement(uid: string, generation: nat, bridgeSalt: Salt, signatureSalt: Salt,
                                 signerLabel: string, signer: Public, message: string)

  datatype Signed = OfUpdate(update: Update) | OfStatement(statement: Statement)

  /** A signature verifies under the key that made it, over what it was made over, and not otherwise. */
  datatype Signature = Signature(maker: Public, over: Signed)

  function Sign(s: Secret, m: Signed): Signature { Signature(PublicOf(s), m) }

  predicate Verifies(p: Public, m: Signed, s: Signature) { s == Signature(p, m) }

  /** A bridge secret with its wrap salt, sealed to an encryption key. */
  datatype Box = Box(to: Public, wrapSalt: Salt, secret: Secret)

  /** The tests on keys the source takes from libraries. */
  datatype Checks = Checks(weak: Public -> bool, verifying: Public -> bool)

  // ----- tables

  /** A roster row; a member always has a signing key, a supervisor never. */
  datatype Party =
    | MemberParty(encryption: Public, signing: Public, isLocal: bool)
    | SupervisorParty(encryption: Public, isLocal: bool)

  datatype SealedRow = SealedRow(wrapSalt: Salt, box: Box)

  datatype Bridge = Bridge(
    title: Option<string>,
    keyId: Option<int>,
    generation: nat,
    public: Public,
    salt: Salt,
    destroyed: bool,
    parties: map<string, Party>,
    sealed: map<string, SealedRow>)

  /** The bridges of one store by uid. */
  type Table = map<string, Bridge>

  // ----- labels

  /** `parent_node_label`: what stands before the last dot. */
  function ParentLabel(name: string): Option<string> {
    if name == "" then None
    else if name[|name| - 1] == '.' then Some(name[..|name| - 1])
    else ParentLabel(name[..|name| - 1])
  }

  function ParentsOf(members: map<string, MemberKeys>): set<string> {
    set l | l in members && ParentLabel(l).Some? :: ParentLabel(l).value
  }

  /** Every member's direct parent is on the roster. */
  ghost predicate ParentClosed(members: map<string, MemberKeys>, others: set<string>) {
    forall l :: l in members && ParentLabel(l).Some? ==> ParentLabel(l).value in members.Keys + others
  }

  // ----- packages

  datatype Package = Package(
    kind: Kind,
    uid: string,
    generation: nat,
    title: string,
    public: Public,
    salt: Salt,
    recipientLabel: string,
    recipient: Public,
    role: Role,
    members: map<string, MemberKeys>,
    supervisors: map<string, Public>,
    removedLabel: string,
    secret: Option<(Salt, Secret)>,
    auth: Option<Signature>)

  function UpdateOf(p: Package): Update {
    Update(p.uid, p.generation, p.kind, p.public, p.salt, p.recipientLabel, p.removedLabel, p.members, p.supervisors)
  }

  /** `update_auth_preimage` refuses empty labels. */
  predicate EmptyLabel(members: map<string, MemberKeys>, supervisors: map<string, Public>) {
    "" in members || "" in supervisors
  }

  /** `encode_package`, up to the bytes. */
  function Encode(c: Checks, p: Package, signer: Option<Secret>): Result<Package> {
    if c.weak(p.recipient) then Err(InvalidPublicKey)
    else if signer.None? then Ok(p)
    else if EmptyLabel(p.members, p.supervisors) then Err(InvalidBridgePackage)
    else Ok(p.(auth := Some(Sign(signer.value, OfUpdate(UpdateOf(p))))))
  }

  function EncodeAll(c: Checks, drafts: seq<Package>, signer: Option<Secret>): Result<seq<Package>> {
    if drafts == [] then Ok([]) else
    var first :- Encode(c, drafts[0], signer);
    var rest :- EncodeAll(c, drafts[1..], signer);
    Ok([first] + rest)
  }

  lemma {:induction false} EncodeAllAt(c: Checks, drafts: seq<Package>, signer: Option<Secret>)
    requires EncodeAll(c, drafts, signer).Ok?
    ensures |EncodeAll(c, drafts, signer).value| == |drafts|
    ensures forall i :: 0 <= i < |drafts| ==>
      Encode(c, drafts[i], signer).Ok? && EncodeAll(c, drafts, signer).value[i] == Encode(c, drafts[i], signer).value
  {
    if drafts != [] {
      EncodeAllAt(c, drafts[1..], signer);
      assert forall i :: 0 < i < |drafts| ==> drafts[i] == drafts[1..][i - 1];
    }
  }

  /** What the packages of one delivery have in common. */
  datatype Terms = Terms(uid: string, generation: nat, title: string, public: Public, salt: Salt,
                         members: map<string, MemberKeys>, supervisors: map<string, Public>, removedLabel: string)

  function Draft(t: Terms, kind: Kind, recipientLabel: string, recipient: Public, role: Role,
                 secret: Option<(Salt, Secret)>): Package
  {
    Package(kind, t.uid, t.generation, t.title, t.public, t.salt, recipientLabel, recipient, role, t.members,
            t.supervisors, t.removedLabel, secret, None)
  }

  function MemberDraft(t: Terms, kind: Kind, name: string, secret: Secret, wraps: string -> Salt): Package
    requires name in t.members
  {
    Draft(t, kind, name, t.members[name].encryption, MemberRole, Some((wraps(name), secret)))
  }

  function SupervisorDraft(t: Terms, name: string): Package
    requires name in t.supervisors
  {
    Draft(t, Supervisor, name, t.supervisors[name], SupervisorRole, None)
  }

  /** The members' drafts, in label order. */
  ghost function MemberDrafts(t: Terms, kind: Kind, secret: Secret, wraps: string -> Salt): (drafts: seq<Package>)
    ensures |drafts| == |Sorted(t.members.Keys)|
  {
    var ms := Sorted(t.members.Keys);
    seq(|ms|, i requires 0 <= i < |ms| => assert ms[i] in ms; MemberDraft(t, kind, ms[i], secret, wraps))
  }

  /** The supervisors' drafts, in label order. */
  ghost function SupervisorDrafts(t: Terms): (drafts: seq<Package>)
    ensures |drafts| == |Sorted(t.supervisors.Keys)|
  {
    var ss := Sorted(t.supervisors.Keys);
    seq(|ss|, i requires 0 <= i < |ss| => assert ss[i] in ss; SupervisorDraft(t, ss[i]))
  }

  /** `packages_for_roster` before encoding. */
  ghost function RosterDrafts(t: Terms, kind: Kind, secret: Secret, wraps: string -> Salt): seq<Package> {
    MemberDrafts(t, kind, secret, wraps) + SupervisorDrafts(t)
  }

  // ----- creating

  datatype PartyInput = PartyInput(name: string, encryption: Public, signing: Option<Public>)

  /** `unique_members` */
  function UniqueMembers(c: Checks, parties: seq<PartyInput>, done: map<string, MemberKeys>)
    : Result<map<string, MemberKeys>>
    decreases parties
  {
    if parties == [] then Ok(done) else
    var p := parties[0];
    if p.name == "" then Err(InvalidBridge)
    else if c.weak(p.encryption) then Err(InvalidPublicKey)
    else if p.signing.None? || !c.verifying(p.signing.value) then Err(InvalidPublicKey)
    else if p.name in done then Err(DuplicateNodeLabel)
    else UniqueMembers(c, parties[1..], done[p.name := MemberKeys(p.encryption, p.signing.value)])
  }

  /** `unique_supervisors` */
  function UniqueSupervisors(c: Checks, parties: seq<PartyInput>, done: map<string, Public>): Result<map<string, Public>>
    decreases parties
  {
    if parties == [] then Ok(done) else
    var p := parties[0];
    if p.name == "" then Err(InvalidBridge)
    else if c.weak(p.encryption) then Err(InvalidPublicKey)
    else if p.name in done then Err(DuplicateNodeLabel)
    else UniqueSupervisors(c, parties[1..], done[p.name := p.encryption])
  }

  /** `fill_implied_supervisors`: every parent must be given, and nobody is both member and supervisor. */
  function FillImplied(members: map<string, MemberKeys>, supervisors: map<string, Public>): Result<map<string, Public>> {
    if ParentsOf(members) <= members.Keys + supervisors.Keys
    then Ok(map l | l in supervisors && l !in members :: supervisors[l])
    else Err(NodeNotFound)
  }

  /** The random draws of an operation: the bridge secret, its salt, and a wrap salt per recipient. */
  datatype Draws = Draws(secret: Secret, salt: Salt, wraps: string -> Salt)

  /** What `commit_planned_creation` stores. */
  datatype Creation = Creation(uid: string, keyId: Option<int>, title: Option<string>, public: Public, salt: Salt,
                               members: map<string, MemberKeys>, supervisors: map<string, Public>,
                               localLabel: Option<string>, secret: Secret)

  function TitleText(title: Option<string>): string { if title.Some? then title.value else "" }

  function CreationTerms(p: Creation): Terms {
    Terms(p.uid, 1, TitleText(p.title), p.public, p.salt, p.members, p.supervisors, "")
  }

  /** `plan_create` up to the packages. */
  function NewCreation(c: Checks, keyId: Option<int>, title: Option<string>, memberInputs: seq<PartyInput>,
                       supervisorInputs: seq<PartyInput>, localLabel: Option<string>, uid: string, d: Draws)
    : Result<Creation>
  {
    var members :- UniqueMembers(c, memberInputs, map[]);
    if |members| < 2 then Err(TooFewBridgeMembers) else
    var given :- UniqueSupervisors(c, supervisorInputs, map[]);
    var supervisors :- FillImplied(members, given);
    if localLabel.Some? && localLabel.value !in members && localLabel.value !in supervisors then Err(NotBridgeMember)
    else Ok(Creation(uid, keyId, title, PublicOf(d.secret), d.salt, members, supervisors, localLabel, d.secret))
  }

  /** `plan_create` */
  ghost function PlanCreate(c: Checks, keyId: Option<int>, title: Option<string>, memberInputs: seq<PartyInput>,
                            supervisorInputs: seq<PartyInput>, localLabel: Option<string>, uid: string, d: Draws)
    : Result<(Creation, seq<Package>)>
  {
    var plan :- NewCreation(c, keyId, title, memberInputs, supervisorInputs, localLabel, uid, d);
    var packages :- EncodeAll(c, RosterDrafts(CreationTerms(plan), Invite, d.secret, d.wraps), None);
    Ok((plan, packages))
  }

  /** The roster rows for a member map and a supervisor map. */
  function PartiesOf(members: map<string, MemberKeys>, supervisors: map<string, Public>, localLabel: Option<string>)
    : map<string, Party>
  {
    map l | l in members.Keys + supervisors.Keys ::
      if l in members then MemberParty(members[l].encryption, members[l].signing, localLabel == Some(l))
      else SupervisorParty(supervisors[l], localLabel == Some(l))
  }

  /** `seal_local_if_member` */
  function SealLocal(c: Checks, members: map<string, MemberKeys>, localLabel: Option<string>, wrapSalt: Salt,
                     secret: Secret): Result<map<string, SealedRow>>
  {
    if localLabel.None? || localLabel.value !in members then Ok(map[])
    else
      var key := members[localLabel.value].encryption;
      if c.weak(key) then Err(InvalidPublicKey)
      else Ok(map[localLabel.value := SealedRow(wrapSalt, Box(key, wrapSalt, secret))])
  }

  /** `commit_planned_creation`; a label that is both member and supervisor would break the primary key. */
  function CommitCreation(c: Checks, t: Table, p: Creation, wrapSalt: Salt): Result<Table> {
    if p.uid in t || !(p.members.Keys !! p.supervisors.Keys) then Err(Db) else
    var sealed :- SealLocal(c, p.members, p.localLabel, wrapSalt, p.secret);
    Ok(t[p.uid := Bridge(p.title, p.keyId, 1, p.public, p.salt, false,
                         PartiesOf(p.members, p.supervisors, p.localLabel), sealed)])
  }

  // ----- importing

  /** `validate_decoded_recipient` */
  predicate RecipientOnRoster(d: Package) {
    match d.role
    case MemberRole => d.recipientLabel in d.members && d.members[d.recipientLabel].encryption == d.recipient
    case SupervisorRole => d.recipientLabel in d.supervisors && d.supervisors[d.recipientLabel] == d.recipient
  }

  /** `empty_to_none` */
  function NonEmpty(s: string): Option<string> { if s == "" then None else Some(s) }

  /** The roster and the sealed secret a package brings (`replace_roster_and_secret`). */
  function ReplaceRoster(c: Checks, b: Bridge, d: Package): Result<Bridge> {
    if !(d.members.Keys !! d.supervisors.Keys) then Err(Db)
    else if d.secret.Some? && d.role.MemberRole? then
      if d.recipientLabel !in d.members then Err(Db)
      else if c.weak(d.recipient) then Err(InvalidPublicKey)
      else
        var (wrapSalt, secret) := d.secret.value;
        Ok(b.(parties := PartiesOf(d.members, d.supervisors, Some(d.recipientLabel)),
              sealed := map[d.recipientLabel := SealedRow(wrapSalt, Box(d.recipient, wrapSalt, secret))]))
    else Ok(b.(parties := PartiesOf(d.members, d.supervisors, Some(d.recipientLabel)), sealed := map[]))
  }

  /** `insert_from_invite` */
  function InsertFromInvite(c: Checks, t: Table, d: Package): Result<Table> {
    if !RecipientOnRoster(d) then Err(InvalidBridgePackage)
    else if d.uid in t then Err(InvalidBridge)
    else if d.generation == 0 then Err(Db)
    else
      var bare := Bridge(NonEmpty(d.title), None, d.generation, d.public, d.salt, false, map[], map[]);
      var b :- ReplaceRoster(c, bare, d);
      Ok(t[d.uid := b])
  }

  /** `verify_update_auth` */
  function VerifyUpdate(d: Package, current: Public): Result<()> {
    if d.auth.None? || EmptyLabel(d.members, d.supervisors) then Err(InvalidBridgePackage)
    else if Verifies(current, OfUpdate(UpdateOf(d)), d.auth.value) then Ok(())
    else Err(SignatureVerificationFailed)
  }

  /** `apply_rotate` */
  function ApplyRotate(c: Checks, t: Table, d: Package): Result<Table> {
    if !RecipientOnRoster(d) then Err(InvalidBridgePackage)
    else if d.uid !in t then Err(BridgeNotFound)
    else
      var b := t[d.uid];
      if b.destroyed then Err(BridgeDestroyed)
      else if d.generation != b.generation + 1 then Err(BridgeGenerationMismatch)
      else
        var _ :- VerifyUpdate(d, b.public);
        var title := if NonEmpty(d.title).Some? then NonEmpty(d.title) else b.title;
        var next :- ReplaceRoster(c, b.(generation := d.generation, public := d.public, salt := d.salt, title := title), d);
        Ok(t[d.uid := next])
  }

  function Destroyed(b: Bridge): Bridge {
    b.(destroyed := true, sealed := map[])
  }

  /** `apply_destroy` */
  function ApplyDestroy(t: Table, d: Package): Result<Table> {
    if d.uid !in t then Err(BridgeNotFound)
    else if t[d.uid].destroyed then Ok(t)
    else
      var _ :- VerifyUpdate(d, t[d.uid].public);
      Ok(t[d.uid := Destroyed(t[d.uid])])
  }

  /** `import_package` */
  function Import(c: Checks, t: Table, d: Package, encryptionSk: Secret): Result<Table> {
    if d.recipient != PublicOf(encryptionSk) then Err(InvalidBridgePackage)
    else match d.kind
      case Invite => InsertFromInvite(c, t, d)
      case Supervisor => if d.generation == 1 && d.auth.None? then InsertFromInvite(c, t, d) else ApplyRotate(c, t, d)
      case Rotate => ApplyRotate(c, t, d)
      case Destroy => ApplyDestroy(t, d)
      case Other(_) => Err(InvalidBridgePackage)
  }

  // ----- removing a member

  /** `remaining_members` */
  function RemainingMembers(parties: map<string, Party>, removed: string): map<string, MemberKeys> {
    map l | l in parties && parties[l].MemberParty? && l != removed ::
      MemberKeys(parties[l].encryption, parties[l].signing)
  }

  function NeededParents(members: map<string, MemberKeys>): set<string> {
    ParentsOf(members) - members.Keys
  }

  /** `supervisor_pubs_for` */
  function SupervisorsFor(members: map<string, MemberKeys>, parties: map<string, Party>): map<string, Public> {
    map l | l in parties && l in NeededParents(members) :: parties[l].encryption
  }

  /** `unseal_local_secret` */
  function UnsealLocal(b: Bridge, localLabel: string, encryptionSk: Secret): Result<Secret> {
    if localLabel !in b.sealed then Err(Db)
    else
      var row := b.sealed[localLabel];
      if row.box.to != PublicOf(encryptionSk) || row.box.wrapSalt != row.wrapSalt then Err(IntegrityCheckFailed)
      else Ok(row.box.secret)
  }

  datatype Removal =
    | DestroyPlan(uid: string, removed: string, expected: nat)
    | RotatePlan(uid: string, removed: string, localLabel: string, expected: nat, generation: nat, public: Public,
                 salt: Salt, members: map<string, MemberKeys>, supervisors: map<string, Public>, secret: Secret)

  /** The checks `plan_remove_member` makes before it builds anything; the bridge secret if they pass. */
  function MayRemove(t: Table, uid: string, removed: string, localLabel: string, encryptionSk: Secret): Result<Secret> {
    if uid !in t then Err(BridgeNotFound)
    else
      var b := t[uid];
      if b.destroyed then Err(BridgeDestroyed)
      else if localLabel == removed then Err(InvalidBridge)
      else if localLabel !in b.parties || !b.parties[localLabel].MemberParty? || localLabel !in b.sealed
      then Err(SealedKeyNotHeld)
      else if PublicOf(encryptionSk) != b.parties[localLabel].encryption then Err(IntegrityCheckFailed)
      else if removed !in b.parties || !b.parties[removed].MemberParty? then Err(NotBridgeMember)
      else UnsealLocal(b, localLabel, encryptionSk)
  }

  /** Roster labels in the order `get` lists them: members, then supervisors, each by label. */
  ghost function PartyOrder(parties: map<string, Party>): (q: seq<string>)
    ensures forall l :: l in q <==> l in parties
  {
    Sorted(set l | l in parties && parties[l].MemberParty?) + Sorted(set l | l in parties && parties[l].SupervisorParty?)
  }

  function RoleOf(p: Party): Role { if p.MemberParty? then MemberRole else SupervisorRole }

  function DestroyDraft(t: Terms, name: string, p: Party): Package {
    Draft(t, Destroy, name, p.encryption, RoleOf(p), None)
  }

  /** Destroy notices for the labels of `order` that are not on the new roster. */
  function DestroyDrafts(t: Terms, order: seq<string>, parties: map<string, Party>, kept: set<string>): seq<Package>
    requires forall l :: l in order ==> l in parties
  {
    if order == [] then []
    else
      assert order[0] in order;
      (if order[0] in kept then [] else [DestroyDraft(t, order[0], parties[order[0]])])
      + DestroyDrafts(t, order[1..], parties, kept)
  }

  function OldTerms(b: Bridge, uid: string, removed: string): Terms {
    var members := RemainingMembers(b.parties, removed);
    Terms(uid, b.generation, TitleText(b.title), b.public, b.salt, members, SupervisorsFor(members, b.parties), removed)
  }

  function NewTerms(b: Bridge, uid: string, removed: string, d: Draws): Terms {
    OldTerms(b, uid, removed).(generation := b.generation + 1, public := PublicOf(d.secret), salt := d.salt)
  }

  /** Fewer than two members remain: everyone gets a destroy notice. */
  ghost function EndBridge(c: Checks, b: Bridge, uid: string, removed: string, secret: Secret)
    : Result<(Removal, seq<Package>)>
  {
    var packages :- EncodeAll(c, DestroyDrafts(OldTerms(b, uid, removed), PartyOrder(b.parties), b.parties, {}), Some(secret));
    Ok((DestroyPlan(uid, removed, b.generation), packages))
  }

  function RotationOf(b: Bridge, uid: string, removed: string, localLabel: string, d: Draws): Removal {
    var next := NewTerms(b, uid, removed, d);
    RotatePlan(uid, removed, localLabel, b.generation, next.generation, next.public, next.salt, next.members,
               next.supervisors, d.secret)
  }

  /** The new roster gets the new terms, everyone else a destroy notice for the old ones. */
  ghost function RotateRoster(c: Checks, b: Bridge, uid: string, removed: string, localLabel: string, secret: Secret,
                              d: Draws): Result<(Removal, seq<Package>)>
  {
    var was := OldTerms(b, uid, removed);
    var rotate :- EncodeAll(c, RosterDrafts(NewTerms(b, uid, removed, d), Rotate, d.secret, d.wraps), Some(secret));
    var notices :- EncodeAll(c, DestroyDrafts(was, PartyOrder(b.parties), b.parties,
                                              was.members.Keys + was.supervisors.Keys), Some(secret));
    Ok((RotationOf(b, uid, removed, localLabel, d), rotate + notices))
  }

  /** The packages of a removal from a live bridge, signed under its secret, and the plan. */
  ghost function WithoutMember(c: Checks, b: Bridge, uid: string, removed: string, localLabel: string,
                               secret: Secret, d: Draws): Result<(Removal, seq<Package>)>
  {
    if |RemainingMembers(b.parties, removed)| < 2 then EndBridge(c, b, uid, removed, secret)
    else RotateRoster(c, b, uid, removed, localLabel, secret, d)
  }

  /** `plan_remove_member` */
  ghost function PlanRemoval(c: Checks, t: Table, uid: string, removed: string, localLabel: string,
                             encryptionSk: Secret, d: Draws): Result<(Removal, seq<Package>)>
  {
    var secret :- MayRemove(t, uid, removed, localLabel, encryptionSk);
    WithoutMember(c, t[uid], uid, removed, localLabel, secret, d)
  }

  /** `commit_planned_removal`: refused unless the bridge is live at the generation of the plan. */
  function CommitRemoval(c: Checks, t: Table, p: Removal, wrapSalt: Salt): Result<Table> {
    if p.uid !in t || t[p.uid].generation != p.expected || t[p.uid].destroyed then Err(BridgeGenerationMismatch)
    else match p
      case DestroyPlan(uid, _, _) => Ok(t[uid := Destroyed(t[uid])])
      case RotatePlan(uid, _, localLabel, _, generation, public, salt, members, supervisors, secret) =>
        if !(members.Keys !! supervisors.Keys) then Err(Db) else
        var sealed :- SealLocal(c, members, Some(localLabel), wrapSalt, secret);
        Ok(t[uid := t[uid].(generation := generation, public := public, salt := salt,
                            parties := PartiesOf(members, supervisors, Some(localLabel)), sealed := sealed)])
  }

  // ----- the coordinator's drop

  function LiveMembers(parties: map<string, Party>): set<string> {
    set l | l in parties && parties[l].MemberParty?
  }

  /** `drop_member_on_coordinator`: the label leaves the roster; fewer than two members end the bridge. */
  function DropMember(t: Table, uid: string, removed: string): Result<Table> {
    if uid !in t then Err(BridgeNotFound)
    else if t[uid].destroyed then Ok(t)
    else
      var b := t[uid];
      var fewer := b.(parties := b.parties - {removed}, sealed := b.sealed - {removed});
      Ok(t[uid := if |LiveMembers(b.parties) - {removed}| < 2 then Destroyed(fewer) else fewer])
  }

  // ----- signing and verifying

  /** A store's unrevoked signing keys by label. */
  type Registry = map<string, seq<Public>>

  /** `signing_public_for_label` */
  function SigningFor(c: Checks, registry: Registry, name: string): Result<Public> {
    if name !in registry || registry[name] == [] then Err(NodeNotFound)
    else if |registry[name]| > 1 then Err(InvalidBridge)
    else if !c.verifying(registry[name][0]) then Err(InvalidPublicKey)
    else Ok(registry[name][0])
  }

  /** The local registry must not contradict the roster. */
  function RegistryAgrees(c: Checks, registry: Registry, name: string, signing: Public): Result<()> {
    match SigningFor(c, registry, name)
    case Ok(known) => if known == signing then Ok(()) else Err(IntegrityCheckFailed)
    case Err(NodeNotFound) => Ok(())
    case Err(e) => Err(e)
  }

  datatype Artifact = Artifact(uid: string, generation: nat, bridgeSalt: Salt, signatureSalt: Salt, signerLabel: string,
                               signer: Public, bridgeSignature: Signature, personalSignature: Signature)

  function StatementOf(a: Artifact, signer: Public, message: string): Signed {
    OfStatement(Statement(a.uid, a.generation, a.bridgeSalt, a.signatureSalt, a.signerLabel, signer, message))
  }

  /** `sign_with_bridge` */
  function SignWithBridge(uid: string, generation: nat, bridgeSalt: Salt, signerLabel: string, bridgeSk: Secret,
                          personalSk: Secret, signatureSalt: Salt, message: string): Artifact
  {
    var signer := PublicOf(personalSk);
    var m := OfStatement(Statement(uid, generation, bridgeSalt, signatureSalt, signerLabel, signer, message));
    Artifact(uid, generation, bridgeSalt, signatureSalt, signerLabel, signer, Sign(bridgeSk, m), Sign(personalSk, m))
  }

  /** `verify_bridge_signature` */
  function VerifyBridgeSignature(a: Artifact, bridgePublic: Public, signer: Public, message: string): Result<()> {
    if a.signer != signer then Err(SignatureVerificationFailed)
    else if !Verifies(bridgePublic, StatementOf(a, signer, message), a.bridgeSignature) then Err(SignatureVerificationFailed)
    else if !Verifies(signer, StatementOf(a, signer, message), a.personalSignature) then Err(SignatureVerificationFailed)
    else Ok(())
  }

  predicate IsMember(b: Bridge, name: string) {
    name in b.parties && b.parties[name].MemberParty?
  }

  /** `sign_message` */
  function SignMessage(c: Checks, t: Table, registry: Registry, uid: string, localLabel: string, encryptionSk: Secret,
                       signingSk: Secret, signatureSalt: Salt, message: string): Result<Artifact>
  {
    if uid !in t then Err(BridgeNotFound)
    else
      var b := t[uid];
      if b.destroyed then Err(BridgeDestroyed)
      else if !IsMember(b, localLabel) then Err(NotBridgeMember)
      else if localLabel !in b.sealed then Err(SealedKeyNotHeld)
      else if PublicOf(encryptionSk) != b.parties[localLabel].encryption then Err(IntegrityCheckFailed)
      else if PublicOf(signingSk) != b.parties[localLabel].signing then Err(IntegrityCheckFailed)
      else
        var _ :- RegistryAgrees(c, registry, localLabel, b.parties[localLabel].signing);
        var bridgeSk :- UnsealLocal(b, localLabel, encryptionSk);
        Ok(SignWithBridge(uid, b.generation, b.salt, localLabel, bridgeSk, signingSk, signatureSalt, message))
  }

  /** `verify_message` */
  function VerifyMessage(c: Checks, t: Table, registry: Registry, uid: string, verifierLabel: string, message: string,
                         a: Artifact): Result<()>
  {
    if uid !in t then Err(BridgeNotFound)
    else
      var b := t[uid];
      if b.destroyed then Err(BridgeDestroyed)
      else if a.uid != uid || a.generation != b.generation || a.bridgeSalt != b.salt then Err(BridgeGenerationMismatch)
      else if !IsMember(b, a.signerLabel) || !IsMember(b, verifierLabel) then Err(NotBridgeMember)
      else
        var signing := b.parties[a.signerLabel].signing;
        var _ :- RegistryAgrees(c, registry, a.signerLabel, signing);
        VerifyBridgeSignature(a, b.public, signing, message)
  }
}
