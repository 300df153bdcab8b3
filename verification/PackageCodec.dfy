/** The KQPB file: a private-bridge package sealed to one recipient, and the bytes its
authentication signature covers (`src/private_bridge.rs`). */
module PackageCodec {
  import opened Errors
  import opened Field
  import opened Lists
  import opened Codec
  import Roster = RosterCodec

  const MEMBER_WIDTH: nat := 64
  const SUPERVISOR_WIDTH: nat := 32

  datatype Role = Member | Supervisor

  function RoleByte(r: Role): Byte { if r.Member? then 1 else 2 }

  function Signing(keys: Bytes): Key
    requires |keys| == MEMBER_WIDTH
  {
    keys[32..]
  }

  /** The cryptography, as ideal operations: the public half of a secret key, sealed boxes,
  signatures, the hash, which byte strings are signing keys, and the weak key test. */
  datatype Crypto = Crypto(
    publicOf: Key -> Key,
    seal: (Key, Bytes, nat) -> Bytes,
    unseal: (Key, Bytes) -> Option<Bytes>,
    sign: (Key, Bytes) -> Signature,
    hash: Bytes -> Key,
    verifying: Key -> bool,
    weak: Key -> bool)

  /** The holder of the secret key opens what was sealed to its public key, whatever coins sealed it. */
  ghost predicate Opens(c: Crypto, secret: Key, letter: Bytes, coins: nat) {
    c.unseal(secret, c.seal(c.publicOf(secret), letter, coins)) == Some(letter)
  }

  // ----- the letter inside the envelope

  datatype Letter = Letter(
    uid: Text,
    generation: U32,
    bridgeLabel: Text,
    publicKey: Key,
    salt: Salt,
    recipientLabel: Text,
    role: Role,
    members: Roster.Roster,
    supervisors: Roster.Roster,
    removedLabel: Text,
    wrapSalt: Option<Salt>,
    secret: Option<Key>,
    authSig: Option<Signature>)

  predicate HeadFits(l: Letter) {
    |l.uid| < 0x1_0000 && |l.bridgeLabel| < 0x1_0000 && |l.recipientLabel| < 0x1_0000
  }

  predicate BodyFits(l: Letter) {
    Roster.Fits(l.members) && Roster.Fits(l.supervisors) && |l.removedLabel| < 0x1_0000
  }

  /** Every length and count has 16 bits. */
  predicate Fits(l: Letter) {
    HeadFits(l) && BodyFits(l)
  }

  function SecretImage(wrapSalt: Option<Salt>, secret: Option<Key>): Bytes {
    if secret.None? then [0]
    else if wrapSalt.None? then [1]
    else [1] + (wrapSalt.value + secret.value)
  }

  function AuthImage(authSig: Option<Signature>): Bytes {
    if authSig.None? then [0] else [1] + authSig.value
  }

  function HeadFields(l: Letter): (fields: seq<Bytes>)
    requires HeadFits(l)
    ensures |fields| == 7
  {
    [Prefixed(l.uid), Be32(l.generation), Prefixed(l.bridgeLabel), l.publicKey, l.salt,
     Prefixed(l.recipientLabel), [RoleByte(l.role)]]
  }

  function UnsignedFields(l: Letter): (fields: seq<Bytes>)
    requires BodyFits(l)
    ensures |fields| == 4
  {
    [Roster.Image(l.members), Roster.Image(l.supervisors), Prefixed(l.removedLabel), SecretImage(l.wrapSalt, l.secret)]
  }

  function BodyFields(l: Letter): (fields: seq<Bytes>)
    requires BodyFits(l)
    ensures |fields| == 5
  {
    UnsignedFields(l) + [AuthImage(l.authSig)]
  }

  /** The plain bytes of the letter. */
  function Image(l: Letter): Bytes
    requires Fits(l)
  {
    Concat(HeadFields(l)) + Concat(BodyFields(l))
  }

  /** What the reader has once past the salt. */
  datatype Ids = Ids(uid: Text, generation: U32, bridgeLabel: Text, publicKey: Key, salt: Salt)

  /** What the reader has once past the recipient's role. */
  datatype Head = Head(ids: Ids, recipientLabel: Text, role: Role)

  function ReadIds(data: Bytes): Taken<Ids> {
    var (uid, d1) :- TakeText(data);
    var (generation, d2) :- TakeN(d1, 4);
    var (bridgeLabel, d3) :- TakeText(d2);
    var (publicKey, d4) :- TakeN(d3, 32);
    var (salt, d5) :- TakeN(d4, 16);
    Taken(Ids(uid, FromBe32(generation), bridgeLabel, publicKey, salt), d5)
  }

  /** `PartyRole::from_u8` */
  function ReadRole(data: Bytes): Taken<Role> {
    var (role, rest) :- TakeN(data, 1);
    if role[0] == 1 then Taken(Member, rest)
    else if role[0] == 2 then Taken(Supervisor, rest)
    else Short
  }

  function ReadHead(data: Bytes): Taken<Head> {
    var (ids, d5) :- ReadIds(data);
    var (recipientLabel, d6) :- TakeText(d5);
    var (role, d7) :- ReadRole(d6);
    Taken(Head(ids, recipientLabel, role), d7)
  }

  function ReadSecret(data: Bytes): Taken<(Option<Salt>, Option<Key>)> {
    var (flag, d1) :- TakeN(data, 1);
    if flag[0] == 0 then Taken((None, None), d1) else
    var (wrapSalt, d2) :- TakeN(d1, 16);
    var (secret, d3) :- TakeN(d2, 32);
    Taken((Some(wrapSalt), Some(secret)), d3)
  }

  function ReadAuth(data: Bytes): Taken<Option<Signature>> {
    var (flag, d1) :- TakeN(data, 1);
    if flag[0] == 0 then Taken(None, d1) else
    var (authSig, d2) :- TakeN(d1, 64);
    Taken(Some(authSig), d2)
  }

  function MemberCheck(c: Crypto): Bytes -> bool {
    (keys: Bytes) => |keys| == MEMBER_WIDTH && c.verifying(Signing(keys))
  }

  function LetterOf(head: Head, members: Roster.Roster, supervisors: Roster.Roster, removedLabel: Text,
                    wrapped: (Option<Salt>, Option<Key>), authSig: Option<Signature>): Letter
  {
    Letter(head.ids.uid, head.ids.generation, head.ids.bridgeLabel, head.ids.publicKey, head.ids.salt,
           head.recipientLabel, head.role, members, supervisors, removedLabel, wrapped.0, wrapped.1, authSig)
  }

  function ReadBody(c: Crypto, head: Head, data: Bytes): Taken<Letter> {
    var (members, d8) :- Roster.Take(data, MEMBER_WIDTH, MemberCheck(c));
    var (supervisors, d9) :- Roster.Take(d8, SUPERVISOR_WIDTH, _ => true);
    var (removedLabel, d10) :- TakeText(d9);
    var (wrapped, d11) :- ReadSecret(d10);
    var (authSig, d12) :- ReadAuth(d11);
    Taken(LetterOf(head, members, supervisors, removedLabel, wrapped, authSig), d12)
  }

  function ReadLetter(c: Crypto, data: Bytes): Taken<Letter> {
    var (head, d7) :- ReadHead(data);
    ReadBody(c, head, d7)
  }

  // ----- the outer header

  datatype Envelope = Envelope(kind: Byte, recipient: Key, sealed: Bytes)

  function Magic(): (m: Bytes)
    ensures |m| == 4
  {
    [0x4B, 0x51, 0x50, 0x42]
  }

  function Version(): (v: Bytes)
    ensures |v| == 1
  {
    [2]
  }

  function OuterFields(e: Envelope): (fields: seq<Bytes>)
    requires |e.sealed| < 0x1_0000_0000
    ensures |fields| == 6
  {
    [Magic(), Version(), [e.kind], e.recipient, Be32(|e.sealed|), e.sealed]
  }

  function ReadOuter(data: Bytes): Taken<Envelope> {
    var (magic, d1) :- TakeN(data, 4);
    if magic != Magic() then Short else
    var (version, d2) :- TakeN(d1, 1);
    if version != Version() then Short else
    var (kind, d3) :- TakeN(d2, 1);
    var (recipient, d4) :- TakeN(d3, 32);
    var (len, d5) :- TakeN(d4, 4);
    var (sealed, d6) :- TakeN(d5, FromBe32(len));
    Taken(Envelope(kind[0], recipient, sealed), d6)
  }

  /** `parse_kqpb_outer` */
  method ParseOuter(bytes: Bytes) returns (r: Result<Envelope>)
    ensures r == Whole(ReadOuter(bytes))
  {
    var data := new Cursor(bytes);
    var magic :- data.TakeBytes(4);
    if magic != Magic() {
      return Err(InvalidBridgePackage);
    }
    var version :- data.TakeBytes(1);
    if version != Version() {
      return Err(InvalidBridgePackage);
    }
    var kind :- data.TakeBytes(1);
    var recipient :- data.TakeBytes(32);
    var len :- data.TakeBytes(4);
    var sealed :- data.TakeBytes(FromBe32(len));
    return if data.data == [] then Ok(Envelope(kind[0], recipient, sealed)) else Err(InvalidBridgePackage);
  }

  /** The header parser accepts exactly what the header writer produces. */
  lemma OuterRoundTrip(e: Envelope)
    requires |e.sealed| < 0x1_0000_0000
    ensures Whole(ReadOuter(Concat(OuterFields(e)))) == Ok(e)
  {
    var f := OuterFields(e);
    assert f[0..] == f;
    ConcatFrom(f, 0);
    ConcatFrom(f, 1);
    ConcatFrom(f, 2);
    ConcatFrom(f, 3);
    ConcatFrom(f, 4);
    ConcatFrom(f, 5);
    TakeFront(f[0], Concat(f[1..]));
    TakeFront(f[1], Concat(f[2..]));
    TakeFront(f[2], Concat(f[3..]));
    TakeFront(f[3], Concat(f[4..]));
    TakeFront(f[4], Concat(f[5..]));
    Be32Inverse(|e.sealed|, f[4]);
    TakeFront(f[5], Concat(f[6..]));
  }

  /** `routing_public_key`: a carrier reads the recipient without opening the letter. */
  method RoutingPublicKey(bytes: Bytes) returns (r: Result<Key>)
    ensures r == (match Whole(ReadOuter(bytes)) case Ok(e) => Ok(e.recipient) case Err(x) => Err(x))
  {
    var outer :- ParseOuter(bytes);
    return Ok(outer.recipient);
  }

  // ----- the signed part

  /** The fields under the authentication signature. */
  datatype Update = Update(uid: Text, generation: U32, kind: Byte, publicKey: Key, salt: Salt,
                           recipientLabel: Text, removedLabel: Text, members: Roster.Roster,
                           supervisors: Roster.Roster)

  function UpdateOf(kind: Byte, l: Letter): Update {
    Update(l.uid, l.generation, kind, l.publicKey, l.salt, l.recipientLabel, l.removedLabel, l.members, l.supervisors)
  }

  /** The bytes of "KQBRIDGE-UPDATE-v1". */
  function Domain(): (d: Bytes)
    ensures |d| == 18
  {
    [0x4B, 0x51, 0x42, 0x52, 0x49, 0x44, 0x47, 0x45, 0x2D, 0x55, 0x50, 0x44, 0x41, 0x54, 0x45, 0x2D, 0x76, 0x31]
  }

  predicate LabelsFit(u: Update) {
    |u.uid| < 0x1_0000 && |u.recipientLabel| < 0x1_0000 && |u.removedLabel| < 0x1_0000
  }

  predicate UpdateFits(u: Update) {
    && LabelsFit(u)
    && Roster.Fits(u.members)
    && Roster.Fits(u.supervisors)
  }

  function HashedHead(u: Update): (fields: seq<Bytes>)
    requires LabelsFit(u)
    ensures |fields| == 8
  {
    [Domain(), Prefixed(u.uid), Be32(u.generation), [u.kind], u.publicKey, u.salt, Prefixed(u.recipientLabel),
     Prefixed(u.removedLabel)]
  }

  /** The fields fed to the hash, in order. */
  function UpdateFields(u: Update): (fields: seq<Bytes>)
    requires UpdateFits(u)
    ensures |fields| == 10
  {
    HashedHead(u) + [Roster.Image(u.members), Roster.Image(u.supervisors)]
  }

  function Preimage(u: Update): Bytes
    requires UpdateFits(u)
  {
    Concat(UpdateFields(u))
  }

  /** Updates with 64-byte member values and 32-byte supervisor values, as the source's types have them. */
  predicate UpdateTyped(u: Update) {
    Roster.Wide(u.members, MEMBER_WIDTH) && Roster.Wide(u.supervisors, SUPERVISOR_WIDTH)
  }

  lemma FieldsFrom(u: Update, i: nat)
    requires UpdateFits(u) && i < 10
    ensures Concat(UpdateFields(u)[i..]) == UpdateFields(u)[i] + Concat(UpdateFields(u)[i + 1..])
  {
    ConcatFrom(UpdateFields(u), i);
  }

  /** Stripping the i-th field off both sides, when it has the same length in both. */
  lemma StripField(a: Update, b: Update, i: nat)
    requires UpdateFits(a) && UpdateFits(b) && i < 10
    requires Concat(UpdateFields(a)[i..]) == Concat(UpdateFields(b)[i..])
    requires |UpdateFields(a)[i]| == |UpdateFields(b)[i]|
    ensures UpdateFields(a)[i] == UpdateFields(b)[i]
    ensures Concat(UpdateFields(a)[i + 1..]) == Concat(UpdateFields(b)[i + 1..])
  {
    FieldsFrom(a, i);
    FieldsFrom(b, i);
    Roster.Strip(UpdateFields(a)[i], Concat(UpdateFields(a)[i + 1..]),
                 UpdateFields(b)[i], Concat(UpdateFields(b)[i + 1..]));
  }

  /** The same for a length-prefixed field. */
  lemma StripTextField(a: Update, b: Update, i: nat, x: Bytes, y: Bytes)
    requires UpdateFits(a) && UpdateFits(b) && i < 10 && |x| < 0x1_0000 && |y| < 0x1_0000
    requires UpdateFields(a)[i] == Prefixed(x) && UpdateFields(b)[i] == Prefixed(y)
    requires Concat(UpdateFields(a)[i..]) == Concat(UpdateFields(b)[i..])
    ensures x == y
    ensures Concat(UpdateFields(a)[i + 1..]) == Concat(UpdateFields(b)[i + 1..])
  {
    FieldsFrom(a, i);
    FieldsFrom(b, i);
    Roster.StripPrefixed(x, Concat(UpdateFields(a)[i + 1..]), y, Concat(UpdateFields(b)[i + 1..]));
  }

  lemma SameRosters(a: Update, b: Update)
    requires UpdateFits(a) && UpdateFits(b) && UpdateTyped(a) && UpdateTyped(b)
    requires Concat(UpdateFields(a)[8..]) == Concat(UpdateFields(b)[8..])
    ensures a.members == b.members && a.supervisors == b.supervisors
  {
    FieldsFrom(a, 8);
    FieldsFrom(b, 8);
    Roster.StripRoster(a.members, Concat(UpdateFields(a)[9..]), b.members, Concat(UpdateFields(b)[9..]), MEMBER_WIDTH);
    FieldsFrom(a, 9);
    FieldsFrom(b, 9);
    Roster.StripRoster(a.supervisors, Concat(UpdateFields(a)[10..]), b.supervisors, Concat(UpdateFields(b)[10..]),
                       SUPERVISOR_WIDTH);
  }

  lemma SameUids(a: Update, b: Update)
    requires UpdateFits(a) && UpdateFits(b) && Preimage(a) == Preimage(b)
    ensures a.uid == b.uid
    ensures Concat(UpdateFields(a)[2..]) == Concat(UpdateFields(b)[2..])
  {
    assert UpdateFields(a)[0..] == UpdateFields(a) && UpdateFields(b)[0..] == UpdateFields(b);
    StripField(a, b, 0);
    StripTextField(a, b, 1, a.uid, b.uid);
  }

  lemma SameGenerations(a: Update, b: Update)
    requires UpdateFits(a) && UpdateFits(b)
    requires Concat(UpdateFields(a)[2..]) == Concat(UpdateFields(b)[2..])
    ensures a.generation == b.generation && a.kind == b.kind
    ensures Concat(UpdateFields(a)[4..]) == Concat(UpdateFields(b)[4..])
  {
    StripField(a, b, 2);
    Be32Inverse(a.generation, UpdateFields(a)[2]);
    Be32Inverse(b.generation, UpdateFields(b)[2]);
    StripField(a, b, 3);
  }

  lemma SameKeysAndLabels(a: Update, b: Update)
    requires UpdateFits(a) && UpdateFits(b)
    requires Concat(UpdateFields(a)[4..]) == Concat(UpdateFields(b)[4..])
    ensures a.publicKey == b.publicKey && a.salt == b.salt
    ensures a.recipientLabel == b.recipientLabel && a.removedLabel == b.removedLabel
    ensures Concat(UpdateFields(a)[8..]) == Concat(UpdateFields(b)[8..])
  {
    StripField(a, b, 4);
    StripField(a, b, 5);
    StripTextField(a, b, 6, a.recipientLabel, b.recipientLabel);
    StripTextField(a, b, 7, a.removedLabel, b.removedLabel);
  }

  /** The hashed bytes determine every field, both rosters included. */
  lemma PreimageInjective(a: Update, b: Update)
    requires UpdateFits(a) && UpdateFits(b) && UpdateTyped(a) && UpdateTyped(b)
    requires Preimage(a) == Preimage(b)
    ensures a == b
  {
    SameUids(a, b);
    SameGenerations(a, b);
    SameKeysAndLabels(a, b);
    SameRosters(a, b);
  }

  /** The first label `update_auth_preimage` refuses: an empty one, or one too long. */
  function RowsError(m: Roster.Roster): Option<Error> {
    if m == [] then None
    else if m[0].name == [] then Some(InvalidBridgePackage)
    else if |m[0].name| >= 0x1_0000 then Some(BundleFieldTooLarge)
    else RowsError(m[1..])
  }

  function RosterError(m: Roster.Roster): Option<Error> {
    if |m| >= 0x1_0000 then Some(BundleFieldTooLarge) else RowsError(m)
  }

  predicate NamesNonEmpty(m: Roster.Roster) {
    forall i :: 0 <= i < |m| ==> m[i].name != []
  }

  lemma {:induction false} RowsErrorMeaning(m: Roster.Roster)
    ensures RowsError(m).None? <==> Roster.NamesFit(m) && NamesNonEmpty(m)
    ensures Roster.NamesFit(m) && RowsError(m).Some? ==> RowsError(m).value == InvalidBridgePackage
  {
    if m != [] {
      RowsErrorMeaning(m[1..]);
      assert m == [m[0]] + m[1..];
    }
  }

  /** What hashing an update gives, with the errors in the order the source meets them. */
  function PreimageHash(c: Crypto, u: Update): Result<Key> {
    if !LabelsFit(u) then Err(BundleFieldTooLarge)
    else if RosterError(u.members).Some? then Err(RosterError(u.members).value)
    else if RosterError(u.supervisors).Some? then Err(RosterError(u.supervisors).value)
    else
      RowsErrorMeaning(u.members);
      RowsErrorMeaning(u.supervisors);
      Ok(c.hash(Preimage(u)))
  }

  /** The count and the rows of one roster. */
  method HashRoster(hasher: Buffer, m: Roster.Roster) returns (r: Result<()>)
    requires hasher.Valid()
    modifies hasher
    ensures hasher.Valid()
    ensures match RosterError(m)
      case Some(e) => r == Err(e)
      case None => r == Ok(()) && Roster.Fits(m) && hasher.fields == old(hasher.fields) + [Roster.Image(m)]
  {
    RowsErrorMeaning(m);
    if |m| >= 0x1_0000 {
      return Err(BundleFieldTooLarge);
    }
    ghost var start, before := hasher.bytes, hasher.fields;
    hasher.Push(Be16(|m|));
    var i := 0;
    while i < |m|
      invariant 0 <= i <= |m| && hasher.Valid() && Roster.NamesFit(m[..i])
      invariant RowsError(m) == RowsError(m[i..])
      invariant hasher.bytes == start + Be16(|m|) + Roster.Rows(m[..i])
    {
      assert m[i..][1..] == m[i + 1..];
      if m[i].name == [] {
        return Err(InvalidBridgePackage);
      }
      Roster.FitSoFar(start + Be16(|m|), m, i);
      var _ :- Roster.PushRow(hasher, m[i]);
      i := i + 1;
    }
    assert m[..i] == m;
    Assoc(start, Be16(|m|), Roster.Rows(m));
    ConcatLast(before, Roster.Image(m));
    hasher.fields := before + [Roster.Image(m)];
    return Ok(());
  }

  /** The part of the preimage before the rosters. */
  method HashHead(hasher: Buffer, u: Update) returns (r: Result<()>)
    requires hasher.Valid() && hasher.fields == []
    modifies hasher
    ensures hasher.Valid()
    ensures if LabelsFit(u) then r == Ok(()) && hasher.fields == HashedHead(u) else r == Err(BundleFieldTooLarge)
  {
    hasher.Push(Domain());
    var _ :- hasher.PushPrefixed(u.uid);
    hasher.Push(Be32(u.generation));
    hasher.Push([u.kind]);
    hasher.Push(u.publicKey);
    hasher.Push(u.salt);
    r := HashLabels(hasher, u);
    assert r.Ok? ==> hasher.fields == HashedHead(u);
  }

  method HashLabels(hasher: Buffer, u: Update) returns (r: Result<()>)
    requires hasher.Valid()
    modifies hasher
    ensures hasher.Valid()
    ensures if |u.recipientLabel| < 0x1_0000 && |u.removedLabel| < 0x1_0000
            then r == Ok(()) && hasher.fields == old(hasher.fields) + [Prefixed(u.recipientLabel), Prefixed(u.removedLabel)]
            else r == Err(BundleFieldTooLarge)
  {
    var _ :- hasher.PushPrefixed(u.recipientLabel);
    var _ :- hasher.PushPrefixed(u.removedLabel);
    return Ok(());
  }

  /** `update_auth_preimage` */
  method UpdateAuthPreimage(c: Crypto, u: Update) returns (r: Result<Key>)
    ensures r == PreimageHash(c, u)
  {
    var hasher := new Buffer();
    var _ :- HashHead(hasher, u);
    var _ :- HashRoster(hasher, u.members);
    var _ :- HashRoster(hasher, u.supervisors);
    assert hasher.fields == UpdateFields(u) by {
      Assoc(HashedHead(u), [Roster.Image(u.members)], [Roster.Image(u.supervisors)]);
    }
    return Ok(c.hash(hasher.bytes));
  }

  // ----- whole packages

  /** What `encode_package` is given: an unsigned letter, its kind and recipient, and the old signing key. */
  datatype Package = Package(kind: Byte, recipient: Key, letter: Letter, oldSigning: Option<Key>)

  /** The letter as it is sent: signed under the old key when there is one. */
  function Signed(c: Crypto, p: Package): Result<Letter> {
    if p.oldSigning.None? then Ok(p.letter.(authSig := None)) else
    var preimage :- PreimageHash(c, UpdateOf(p.kind, p.letter));
    Ok(p.letter.(authSig := Some(c.sign(p.oldSigning.value, preimage))))
  }

  /** The bytes of a package, with the errors in the order the source meets them. */
  function Encoded(c: Crypto, p: Package, coins: nat): Result<Bytes> {
    if c.weak(p.recipient) then Err(InvalidPublicKey)
    else if !Fits(p.letter) then Err(BundleFieldTooLarge)
    else
      var letter :- Signed(c, p);
      var sealed := c.seal(p.recipient, Image(letter), coins);
      if |sealed| >= 0x1_0000_0000 then Err(BundleFieldTooLarge)
      else Ok(Concat(OuterFields(Envelope(p.kind, p.recipient, sealed))))
  }

  method PushHead(payload: Buffer, l: Letter) returns (r: Result<()>)
    requires payload.Valid() && payload.fields == []
    modifies payload
    ensures payload.Valid()
    ensures HeadFits(l) ==> r == Ok(()) && payload.fields == HeadFields(l)
    ensures !HeadFits(l) ==> r == Err(BundleFieldTooLarge)
  {
    var _ :- payload.PushPrefixed(l.uid);
    payload.Push(Be32(l.generation));
    var _ :- payload.PushPrefixed(l.bridgeLabel);
    payload.Push(l.publicKey);
    payload.Push(l.salt);
    var _ :- payload.PushPrefixed(l.recipientLabel);
    payload.Push([RoleByte(l.role)]);
    return Ok(());
  }

  /** The rosters, the removed label and the wrapped secret. */
  method PushBody(payload: Buffer, l: Letter) returns (r: Result<()>)
    requires payload.Valid()
    modifies payload
    ensures payload.Valid()
    ensures if BodyFits(l) then r == Ok(()) && payload.fields == old(payload.fields) + UnsignedFields(l)
            else r == Err(BundleFieldTooLarge)
  {
    ghost var before := payload.fields;
    var _ :- Roster.Push(payload, l.members);
    var _ :- Roster.Push(payload, l.supervisors);
    var _ :- payload.PushPrefixed(l.removedLabel);
    payload.Push(SecretImage(l.wrapSalt, l.secret));
    assert payload.fields == before + UnsignedFields(l);
    return Ok(());
  }

  lemma WholeImage(l: Letter, authSig: Option<Signature>)
    requires Fits(l)
    ensures Fits(l.(authSig := authSig))
    ensures Concat(HeadFields(l) + UnsignedFields(l) + [AuthImage(authSig)]) == Image(l.(authSig := authSig))
  {
    var whole := l.(authSig := authSig);
    assert BodyFields(whole) == UnsignedFields(l) + [AuthImage(authSig)] && HeadFields(whole) == HeadFields(l);
    Assoc(HeadFields(l), UnsignedFields(l), [AuthImage(authSig)]);
    ConcatAppend(HeadFields(whole), BodyFields(whole));
  }

  /** The letter, pushed field after field. */
  method PushLetter(c: Crypto, p: Package) returns (r: Result<Bytes>)
    ensures r == if !Fits(p.letter) then Err(BundleFieldTooLarge) else match Signed(c, p)
      case Err(e) => Err(e)
      case Ok(letter) => Ok(Image(letter))
  {
    var payload := new Buffer();
    var _ :- PushHead(payload, p.letter);
    var _ :- PushBody(payload, p.letter);
    if p.oldSigning.None? {
      payload.Push(AuthImage(None));
      WholeImage(p.letter, None);
    } else {
      var preimage :- UpdateAuthPreimage(c, UpdateOf(p.kind, p.letter));
      var authSig := c.sign(p.oldSigning.value, preimage);
      payload.Push(AuthImage(Some(authSig)));
      WholeImage(p.letter, Some(authSig));
    }
    return Ok(payload.bytes);
  }

  /** `encode_package` */
  method EncodePackage(c: Crypto, p: Package, coins: nat) returns (r: Result<Bytes>)
    ensures r == Encoded(c, p, coins)
  {
    if c.weak(p.recipient) {
      return Err(InvalidPublicKey);
    }
    var payload :- PushLetter(c, p);
    var sealed := c.seal(p.recipient, payload, coins);
    if |sealed| >= 0x1_0000_0000 {
      return Err(BundleFieldTooLarge);
    }
    var out := new Buffer();
    out.Push(Magic());
    out.Push(Version());
    out.Push([p.kind]);
    out.Push(p.recipient);
    out.Push(Be32(|sealed|));
    out.Push(sealed);
    assert out.fields == OuterFields(Envelope(p.kind, p.recipient, sealed));
    return Ok(out.bytes);
  }

  datatype Decoded = Decoded(kind: Byte, recipient: Key, letter: Letter)

  function Opened(c: Crypto, bytes: Bytes, secret: Key): Result<Decoded> {
    var outer :- Whole(ReadOuter(bytes));
    match c.unseal(secret, outer.sealed)
    case None => Err(InvalidBridgePackage)
    case Some(payload) =>
      var letter :- Whole(ReadLetter(c, payload));
      Ok(Decoded(outer.kind, outer.recipient, letter))
  }

  method TakeIds(c: Cursor) returns (r: Result<Ids>)
    modifies c
    ensures match ReadIds(old(c.data))
      case Short => r == Err(InvalidBridgePackage)
      case Taken(v, rest) => r == Ok(v) && c.data == rest
  {
    var uid :- c.TakeString();
    var generation :- c.TakeBytes(4);
    var bridgeLabel :- c.TakeString();
    var publicKey :- c.TakeBytes(32);
    var salt :- c.TakeBytes(16);
    return Ok(Ids(uid, FromBe32(generation), bridgeLabel, publicKey, salt));
  }

  method TakeRole(c: Cursor) returns (r: Result<Role>)
    modifies c
    ensures match ReadRole(old(c.data))
      case Short => r == Err(InvalidBridgePackage)
      case Taken(v, rest) => r == Ok(v) && c.data == rest
  {
    var role :- c.TakeBytes(1);
    return if role[0] == 1 then Ok(Member) else if role[0] == 2 then Ok(Supervisor) else Err(InvalidBridgePackage);
  }

  method TakeHead(c: Cursor) returns (r: Result<Head>)
    modifies c
    ensures match ReadHead(old(c.data))
      case Short => r == Err(InvalidBridgePackage)
      case Taken(v, rest) => r == Ok(v) && c.data == rest
  {
    var ids :- TakeIds(c);
    var recipientLabel :- c.TakeString();
    var role :- TakeRole(c);
    return Ok(Head(ids, recipientLabel, role));
  }

  method TakeSecret(c: Cursor) returns (r: Result<(Option<Salt>, Option<Key>)>)
    modifies c
    ensures match ReadSecret(old(c.data))
      case Short => r == Err(InvalidBridgePackage)
      case Taken(v, rest) => r == Ok(v) && c.data == rest
  {
    var flag :- c.TakeBytes(1);
    if flag[0] == 0 {
      return Ok((None, None));
    }
    var wrapSalt :- c.TakeBytes(16);
    var secret :- c.TakeBytes(32);
    return Ok((Some(wrapSalt), Some(secret)));
  }

  method TakeAuth(c: Cursor) returns (r: Result<Option<Signature>>)
    modifies c
    ensures match ReadAuth(old(c.data))
      case Short => r == Err(InvalidBridgePackage)
      case Taken(v, rest) => r == Ok(v) && c.data == rest
  {
    var flag :- c.TakeBytes(1);
    if flag[0] == 0 {
      return Ok(None);
    }
    var authSig :- c.TakeBytes(64);
    return Ok(Some(authSig));
  }

  method TakeBody(c: Crypto, head: Head, payload: Cursor) returns (r: Result<Letter>)
    modifies payload
    ensures match ReadBody(c, head, old(payload.data))
      case Short => r == Err(InvalidBridgePackage)
      case Taken(v, rest) => r == Ok(v) && payload.data == rest
  {
    var members :- Roster.TakeRoster(payload, MEMBER_WIDTH, MemberCheck(c));
    var supervisors :- Roster.TakeRoster(payload, SUPERVISOR_WIDTH, _ => true);
    var removedLabel :- payload.TakeString();
    var wrapped :- TakeSecret(payload);
    var authSig :- TakeAuth(payload);
    return Ok(LetterOf(head, members, supervisors, removedLabel, wrapped, authSig));
  }

  /** `decode_package` */
  method DecodePackage(c: Crypto, bytes: Bytes, secret: Key) returns (r: Result<Decoded>)
    ensures r == Opened(c, bytes, secret)
  {
    var outer :- ParseOuter(bytes);
    var plain := c.unseal(secret, outer.sealed);
    if plain.None? {
      return Err(InvalidBridgePackage);
    }
    var payload := new Cursor(plain.value);
    var head :- TakeHead(payload);
    var letter :- TakeBody(c, head, payload);
    if payload.data != [] {
      return Err(InvalidBridgePackage);
    }
    return Ok(Decoded(outer.kind, outer.recipient, letter));
  }

  // ----- the round trip

  /** Rosters as the source's types have them: ordered maps, values of the right width, valid signing keys. */
  ghost predicate Typed(c: Crypto, l: Letter) {
    && Roster.Readable(l.members, MEMBER_WIDTH, MemberCheck(c))
    && Roster.Readable(l.supervisors, SUPERVISOR_WIDTH, _ => true)
    && (l.wrapSalt.Some? <==> l.secret.Some?)
  }

  lemma ReadIdsBack(l: Letter, rest: Bytes)
    requires HeadFits(l)
    ensures ReadIds(Concat(HeadFields(l)[..5]) + rest)
         == Taken(Ids(l.uid, l.generation, l.bridgeLabel, l.publicKey, l.salt), rest)
  {
    var f := HeadFields(l)[..5] + [rest];
    ConcatLast(HeadFields(l)[..5], rest);
    assert f[0..] == f;
    ConcatFrom(f, 0);
    ConcatFrom(f, 1);
    ConcatFrom(f, 2);
    ConcatFrom(f, 3);
    ConcatFrom(f, 4);
    ConcatFrom(f, 5);
    TakeTextFront(l.uid, Concat(f[1..]));
    TakeFront(f[1], Concat(f[2..]));
    Be32Inverse(l.generation, f[1]);
    TakeTextFront(l.bridgeLabel, Concat(f[3..]));
    TakeFront(f[3], Concat(f[4..]));
    TakeFront(f[4], Concat(f[5..]));
    assert f[6..] == [] && rest + [] == rest;
  }

  lemma HeadImage(l: Letter, rest: Bytes)
    requires HeadFits(l)
    ensures Concat(HeadFields(l)) + rest
         == Concat(HeadFields(l)[..5]) + (Prefixed(l.recipientLabel) + ([RoleByte(l.role)] + rest))
  {
    var f, p, role := HeadFields(l)[..5], Prefixed(l.recipientLabel), [RoleByte(l.role)];
    assert HeadFields(l) == f + [p] + [role];
    ConcatLast(f + [p], role);
    ConcatLast(f, p);
    Assoc(Concat(f) + p, role, rest);
    Assoc(Concat(f), p, role + rest);
  }

  lemma ReadRoleBack(ids: Ids, data: Bytes, recipientLabel: Text, role: Role, rest: Bytes)
    requires |recipientLabel| < 0x1_0000
    requires ReadIds(data) == Taken(ids, Prefixed(recipientLabel) + ([RoleByte(role)] + rest))
    ensures ReadHead(data) == Taken(Head(ids, recipientLabel, role), rest)
  {
    TakeTextFront(recipientLabel, [RoleByte(role)] + rest);
    TakeFront([RoleByte(role)], rest);
  }

  lemma ReadHeadBack(l: Letter, rest: Bytes)
    requires HeadFits(l)
    ensures ReadHead(Concat(HeadFields(l)) + rest)
         == Taken(Head(Ids(l.uid, l.generation, l.bridgeLabel, l.publicKey, l.salt), l.recipientLabel, l.role), rest)
  {
    var tail := Prefixed(l.recipientLabel) + ([RoleByte(l.role)] + rest);
    ReadIdsBack(l, tail);
    ReadRoleBack(Ids(l.uid, l.generation, l.bridgeLabel, l.publicKey, l.salt), Concat(HeadFields(l)[..5]) + tail,
                 l.recipientLabel, l.role, rest);
    HeadImage(l, rest);
  }

  lemma ReadSecretBack(wrapSalt: Option<Salt>, secret: Option<Key>, rest: Bytes)
    requires wrapSalt.Some? <==> secret.Some?
    ensures ReadSecret(SecretImage(wrapSalt, secret) + rest) == Taken((wrapSalt, secret), rest)
  {
    if secret.None? {
      TakeFront([0], rest);
    } else {
      Assoc([1], wrapSalt.value + secret.value, rest);
      Assoc(wrapSalt.value, secret.value, rest);
      TakeFront([1], wrapSalt.value + (secret.value + rest));
      TakeFront(wrapSalt.value, secret.value + rest);
      TakeFront(secret.value, rest);
    }
  }

  lemma ReadAuthBack(authSig: Option<Signature>, rest: Bytes)
    ensures ReadAuth(AuthImage(authSig) + rest) == Taken(authSig, rest)
  {
    if authSig.None? {
      TakeFront([0], rest);
    } else {
      Assoc([1], authSig.value, rest);
      TakeFront([1], authSig.value + rest);
      TakeFront(authSig.value, rest);
    }
  }

  lemma ReadLetterBack(c: Crypto, l: Letter)
    requires Fits(l) && Typed(c, l)
    ensures Whole(ReadLetter(c, Image(l))) == Ok(l)
  {
    var f := BodyFields(l);
    ReadHeadBack(l, Concat(f));
    assert f[0..] == f;
    ConcatFrom(f, 0);
    ConcatFrom(f, 1);
    ConcatFrom(f, 2);
    ConcatFrom(f, 3);
    ConcatFrom(f, 4);
    Roster.TakeFrontRoster(l.members, MEMBER_WIDTH, MemberCheck(c), Concat(f[1..]));
    Roster.TakeFrontRoster(l.supervisors, SUPERVISOR_WIDTH, _ => true, Concat(f[2..]));
    TakeTextFront(l.removedLabel, Concat(f[3..]));
    ReadSecretBack(l.wrapSalt, l.secret, Concat(f[4..]));
    ReadAuthBack(l.authSig, Concat(f[5..]));
  }

  lemma SignedFits(c: Crypto, p: Package)
    requires Fits(p.letter) && Typed(c, p.letter) && Signed(c, p).Ok?
    ensures Fits(Signed(c, p).value) && Typed(c, Signed(c, p).value)
  {
  }

  /** What was encoded for the holder of a secret key decodes, under that key, to the package:
  same kind, same recipient, same letter, signed exactly when a signing key was given. */
  lemma PackageRoundTrip(c: Crypto, p: Package, coins: nat, secret: Key)
    requires p.recipient == c.publicOf(secret)
    requires forall letter :: Opens(c, secret, letter, coins)
    requires Typed(c, p.letter) && Encoded(c, p, coins).Ok?
    ensures Signed(c, p).Ok?
    ensures Opened(c, Encoded(c, p, coins).value, secret) == Ok(Decoded(p.kind, p.recipient, Signed(c, p).value))
  {
    SignedFits(c, p);
    var l := Signed(c, p).value;
    var payload := Image(l);
    assert Opens(c, secret, payload, coins);
    OuterRoundTrip(Envelope(p.kind, p.recipient, c.seal(p.recipient, payload, coins)));
    ReadLetterBack(c, l);
  }

  /** A carrier routes every encodable package to the key it was sealed to. */
  lemma RoutesToRecipient(c: Crypto, p: Package, coins: nat)
    requires Encoded(c, p, coins).Ok?
    ensures Whole(ReadOuter(Encoded(c, p, coins).value)).Ok?
    ensures Whole(ReadOuter(Encoded(c, p, coins).value)).value.recipient == p.recipient
  {
    var payload := Image(Signed(c, p).value);
    OuterRoundTrip(Envelope(p.kind, p.recipient, c.seal(p.recipient, payload, coins)));
  }
}
