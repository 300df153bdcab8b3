/** The KQBS file: a private-bridge signature artifact (`src/signing.rs`). */
module SignatureCodec {
  import opened Errors
  import opened Field
  import opened Codec

  datatype Artifact = Artifact(
    uid: Text,
    generation: U32,
    bridgeSalt: Salt,
    signatureSalt: Salt,
    signerLabel: Text,
    signerPublicKey: Key,
    bridgeSignature: Signature,
    personalSignature: Signature)

  function Magic(): (m: Bytes)
    ensures |m| == 4
  {
    [0x4B, 0x51, 0x42, 0x53]
  }

  function Version(): (v: Bytes)
    ensures |v| == 1
  {
    [1]
  }

  predicate Encodable(a: Artifact) {
    |a.uid| < 0x1_0000 && |a.signerLabel| < 0x1_0000
  }

  /** The fields of the file, in order. */
  function Fields(a: Artifact): (fields: seq<Bytes>)
    requires Encodable(a)
    ensures |fields| == 10
  {
    [Magic(), Version(), Prefixed(a.uid), Be32(a.generation), a.bridgeSalt, a.signatureSalt,
     Prefixed(a.signerLabel), a.signerPublicKey, a.bridgeSignature, a.personalSignature]
  }

  function Image(a: Artifact): Bytes
    requires Encodable(a)
  {
    Concat(Fields(a))
  }

  /** Everything up to the signer's label. */
  method PushHead(out: Buffer, a: Artifact) returns (r: Result<()>)
    requires out.Valid() && out.fields == []
    modifies out
    ensures out.Valid()
    ensures if Encodable(a) then r == Ok(()) && out.fields == Fields(a)[..7] else r == Err(BundleFieldTooLarge)
  {
    out.Push(Magic());
    out.Push(Version());
    var _ :- out.PushPrefixed(a.uid);
    out.Push(Be32(a.generation));
    out.Push(a.bridgeSalt);
    out.Push(a.signatureSalt);
    var _ :- out.PushPrefixed(a.signerLabel);
    return Ok(());
  }

  /** `encode_bridge_signature` */
  method Encode(a: Artifact) returns (r: Result<Bytes>)
    ensures r == if Encodable(a) then Ok(Image(a)) else Err(BundleFieldTooLarge)
  {
    var out := new Buffer();
    var _ :- PushHead(out, a);
    out.Push(a.signerPublicKey);
    out.Push(a.bridgeSignature);
    out.Push(a.personalSignature);
    assert out.fields == Fields(a);
    return Ok(out.bytes);
  }

  /** What the reader has once past the signer's label. */
  datatype Head = Head(uid: Text, generation: U32, bridgeSalt: Salt, signatureSalt: Salt, signerLabel: Text)

  function ReadMagic(data: Bytes): Taken<()> {
    var (magic, d1) :- TakeN(data, 4);
    if magic != Magic() then Short else
    var (version, d2) :- TakeN(d1, 1);
    if version != Version() then Short else Taken((), d2)
  }

  function ReadHead(data: Bytes): Taken<Head> {
    var (uid, d3) :- TakeText(data);
    var (generation, d4) :- TakeN(d3, 4);
    var (bridgeSalt, d5) :- TakeN(d4, 16);
    var (signatureSalt, d6) :- TakeN(d5, 16);
    var (signerLabel, d7) :- TakeText(d6);
    Taken(Head(uid, FromBe32(generation), bridgeSalt, signatureSalt, signerLabel), d7)
  }

  function ReadKeys(head: Head, data: Bytes): Taken<Artifact> {
    var (signerPublicKey, d8) :- TakeN(data, 32);
    var (bridgeSignature, d9) :- TakeN(d8, 64);
    var (personalSignature, d10) :- TakeN(d9, 64);
    Taken(Artifact(head.uid, head.generation, head.bridgeSalt, head.signatureSalt, head.signerLabel,
                   signerPublicKey, bridgeSignature, personalSignature), d10)
  }

  /** Reading the fields back one after the other. */
  function Read(data: Bytes): Taken<Artifact> {
    var (_, d2) :- ReadMagic(data);
    var (head, d7) :- ReadHead(d2);
    ReadKeys(head, d7)
  }

  method TakeMagic(c: Cursor) returns (r: Result<()>)
    modifies c
    ensures match ReadMagic(old(c.data))
      case Short => r == Err(InvalidBridgePackage)
      case Taken(v, rest) => r == Ok(v) && c.data == rest
  {
    var magic :- c.TakeBytes(4);
    if magic != Magic() {
      return Err(InvalidBridgePackage);
    }
    var version :- c.TakeBytes(1);
    return if version == Version() then Ok(()) else Err(InvalidBridgePackage);
  }

  method TakeHead(c: Cursor) returns (r: Result<Head>)
    modifies c
    ensures match ReadHead(old(c.data))
      case Short => r == Err(InvalidBridgePackage)
      case Taken(v, rest) => r == Ok(v) && c.data == rest
  {
    var uid :- c.TakeString();
    var generation :- c.TakeBytes(4);
    var bridgeSalt :- c.TakeBytes(16);
    var signatureSalt :- c.TakeBytes(16);
    var signerLabel :- c.TakeString();
    return Ok(Head(uid, FromBe32(generation), bridgeSalt, signatureSalt, signerLabel));
  }

  /** `decode_bridge_signature` */
  method Decode(bytes: Bytes) returns (r: Result<Artifact>)
    ensures r == Whole(Read(bytes))
  {
    var c := new Cursor(bytes);
    var _ :- TakeMagic(c);
    var head :- TakeHead(c);
    var signerPublicKey :- c.TakeBytes(32);
    var bridgeSignature :- c.TakeBytes(64);
    var personalSignature :- c.TakeBytes(64);
    if c.data != [] {
      return Err(InvalidBridgePackage);
    }
    return Ok(Artifact(head.uid, head.generation, head.bridgeSalt, head.signatureSalt, head.signerLabel,
                       signerPublicKey, bridgeSignature, personalSignature));
  }

  /** Decoding what `Encode` produced gives the artifact back. */
  lemma DecodeOfEncode(a: Artifact)
    requires Encodable(a)
    ensures Whole(Read(Image(a))) == Ok(a)
  {
    var f := Fields(a);
    assert f[0..] == f;
    forall i: nat | i < 10 ensures Concat(f[i..]) == f[i] + Concat(f[i + 1..]) {
      ConcatFrom(f, i);
    }
    TakeFront(f[0], Concat(f[1..]));
    TakeFront(f[1], Concat(f[2..]));
    TakeTextFront(a.uid, Concat(f[3..]));
    TakeFront(f[3], Concat(f[4..]));
    Be32Inverse(a.generation, f[3]);
    TakeFront(f[4], Concat(f[5..]));
    TakeFront(f[5], Concat(f[6..]));
    TakeTextFront(a.signerLabel, Concat(f[7..]));
    TakeFront(f[7], Concat(f[8..]));
    TakeFront(f[8], Concat(f[9..]));
    TakeFront(f[9], Concat(f[10..]));
    assert f[10..] == [];
  }

  lemma MagicImage(data: Bytes, rest: Bytes)
    requires ReadMagic(data) == Taken((), rest)
    ensures data == Magic() + (Version() + rest)
  {
  }

  lemma HeadImage(data: Bytes, head: Head, rest: Bytes)
    requires ReadHead(data) == Taken(head, rest)
    ensures |head.uid| < 0x1_0000 && |head.signerLabel| < 0x1_0000
    ensures data == Prefixed(head.uid) + (Be32(head.generation) + (head.bridgeSalt + (head.signatureSalt
                      + (Prefixed(head.signerLabel) + rest))))
  {
    Be32Inverse(0, TakeText(data).rest[..4]);
  }

  lemma KeysImage(head: Head, data: Bytes, a: Artifact)
    requires ReadKeys(head, data) == Taken(a, [])
    ensures data == a.signerPublicKey + (a.bridgeSignature + a.personalSignature)
    ensures a.uid == head.uid && a.generation == head.generation && a.bridgeSalt == head.bridgeSalt
    ensures a.signatureSalt == head.signatureSalt && a.signerLabel == head.signerLabel
  {
  }

  lemma {:induction false} ConcatTwo(a: Bytes, b: Bytes)
    ensures Concat([a, b]) == a + b
  {
    assert [a, b][1..] == [b] && [b][1..] == [];
    assert Concat([b]) == b + Concat([]) == b;
  }

  lemma {:induction false} ImageIs(a: Artifact)
    requires Encodable(a)
    ensures Image(a) == Magic() + (Version() + (Prefixed(a.uid) + (Be32(a.generation) + (a.bridgeSalt + (a.signatureSalt
                      + (Prefixed(a.signerLabel) + (a.signerPublicKey + (a.bridgeSignature + a.personalSignature))))))))
  {
    var f := Fields(a);
    assert f[0..] == f;
    ConcatFrom(f, 0);
    ConcatFrom(f, 1);
    ConcatFrom(f, 2);
    ConcatFrom(f, 3);
    ConcatFrom(f, 4);
    ConcatFrom(f, 5);
    ConcatFrom(f, 6);
    ConcatFrom(f, 7);
    ConcatTwo(f[8], f[9]);
    assert f[8..] == [f[8], f[9]];
  }

  /** Only what `Encode` produces is accepted: encoding the decoded artifact gives the bytes back. */
  lemma EncodeOfDecode(bytes: Bytes)
    requires Whole(Read(bytes)).Ok?
    ensures Encodable(Whole(Read(bytes)).value) && Image(Whole(Read(bytes)).value) == bytes
  {
    var a := Whole(Read(bytes)).value;
    var d2 := ReadMagic(bytes).rest;
    var head, d7 := ReadHead(d2).value, ReadHead(d2).rest;
    MagicImage(bytes, d2);
    HeadImage(d2, head, d7);
    KeysImage(head, d7, a);
    ImageIs(a);
  }

  /** Decode accepts exactly the images of Encode. */
  lemma AcceptsExactlyImages(bytes: Bytes)
    ensures Whole(Read(bytes)).Ok? <==> exists a :: Encodable(a) && bytes == Image(a)
  {
    if Whole(Read(bytes)).Ok? {
      EncodeOfDecode(bytes);
    } else if exists a :: Encodable(a) && bytes == Image(a) {
      var a :| Encodable(a) && bytes == Image(a);
      DecodeOfEncode(a);
    }
  }

  // ----- the bytes a bridge signature covers

  /** What `bridge_sign_preimage` hashes: the artifact's fields without the signatures, and the message. */
  datatype Statement = Statement(
    uid: Text,
    generation: U32,
    bridgeSalt: Salt,
    signatureSalt: Salt,
    signerLabel: Text,
    signerPublicKey: Key,
    message: Bytes)

  /** "KQBRIDGE-SIGN-v1" */
  function SignDomain(): (d: Bytes)
    ensures |d| == 16
  {
    [0x4B, 0x51, 0x42, 0x52, 0x49, 0x44, 0x47, 0x45, 0x2D, 0x53, 0x49, 0x47, 0x4E, 0x2D, 0x76, 0x31]
  }

  /** The hashed fields, in order; none carries its length. */
  function StatementFields(s: Statement): (fields: seq<Bytes>)
    ensures |fields| == 8
  {
    [SignDomain(), s.uid, Be32(s.generation), s.bridgeSalt, s.signatureSalt, s.signerLabel, s.signerPublicKey, s.message]
  }

  function SignPreimage(s: Statement): Bytes {
    Concat(StatementFields(s))
  }

  /** `bridge_sign_preimage` */
  method BridgeSignPreimage(hash: Bytes -> Key, s: Statement) returns (h: Key)
    ensures h == hash(SignPreimage(s))
  {
    var hasher := new Buffer();
    hasher.Push(SignDomain());
    hasher.Push(s.uid);
    hasher.Push(Be32(s.generation));
    hasher.Push(s.bridgeSalt);
    hasher.Push(s.signatureSalt);
    hasher.Push(s.signerLabel);
    hasher.Push(s.signerPublicKey);
    hasher.Push(s.message);
    assert hasher.fields == StatementFields(s);
    return hash(hasher.bytes);
  }

  lemma StripStatementField(a: Statement, b: Statement, i: nat)
    requires i < 8 && Concat(StatementFields(a)[i..]) == Concat(StatementFields(b)[i..])
    requires |StatementFields(a)[i]| == |StatementFields(b)[i]|
    ensures StatementFields(a)[i] == StatementFields(b)[i]
    ensures Concat(StatementFields(a)[i + 1..]) == Concat(StatementFields(b)[i + 1..])
  {
    ConcatFrom(StatementFields(a), i);
    ConcatFrom(StatementFields(b), i);
    TakeFront(StatementFields(a)[i], Concat(StatementFields(a)[i + 1..]));
    TakeFront(StatementFields(b)[i], Concat(StatementFields(b)[i + 1..]));
  }

  lemma {:induction false} SameFieldsFrom(a: Statement, b: Statement, i: nat)
    requires |a.uid| == |b.uid| && |a.signerLabel| == |b.signerLabel|
    requires i < 8 && Concat(StatementFields(a)[i..]) == Concat(StatementFields(b)[i..])
    ensures forall j :: i <= j < 8 ==> StatementFields(a)[j] == StatementFields(b)[j]
    decreases 8 - i
  {
    if i == 7 {
      assert StatementFields(a)[7..] == [a.message] && StatementFields(b)[7..] == [b.message];
      ConcatOne(a.message);
      ConcatOne(b.message);
    } else {
      StripStatementField(a, b, i);
      SameFieldsFrom(a, b, i + 1);
    }
  }

  lemma SameFieldsSameStatement(a: Statement, b: Statement)
    requires StatementFields(a) == StatementFields(b)
    ensures a == b
  {
    Be32Inverse(a.generation, StatementFields(a)[2]);
    Be32Inverse(b.generation, StatementFields(b)[2]);
    assert StatementFields(a)[1] == a.uid && StatementFields(a)[3] == a.bridgeSalt && StatementFields(a)[4] == a.signatureSalt;
    assert StatementFields(a)[5] == a.signerLabel && StatementFields(a)[6] == a.signerPublicKey
      && StatementFields(a)[7] == a.message;
  }

  lemma EqualLengthsEqualStatements(a: Statement, b: Statement)
    requires |a.uid| == |b.uid| && |a.signerLabel| == |b.signerLabel|
    requires SignPreimage(a) == SignPreimage(b)
    ensures a == b
  {
    assert StatementFields(a)[0..] == StatementFields(a) && StatementFields(b)[0..] == StatementFields(b);
    SameFieldsFrom(a, b, 0);
    assert StatementFields(a) == StatementFields(b);
    SameFieldsSameStatement(a, b);
  }

  lemma {:induction false} ConcatOne(a: Bytes)
    ensures Concat([a]) == a
  {
    assert [a][1..] == [];
    assert Concat([a]) == a + Concat([]);
  }

  /** n times the digit zero. */
  function Digits(n: nat): (t: Text)
    ensures |t| == n && forall i :: 0 <= i < n ==> t[i] == 0x30
    decreases n
  {
    if n == 0 then [] else
      var rest: Bytes := Digits(n - 1);
      assert ([0x30] + rest)[1..] == rest;
      [0x30] + rest
  }

  /** A statement written with zero digits only. */
  function DigitStatement(uid: nat, name: nat, message: nat): (s: Statement)
    ensures |s.uid| == uid && |s.signerLabel| == name && |s.message| == message
  {
    var salt: Salt, key: Key := seq<Byte>(16, _ => 0x30), seq<Byte>(32, _ => 0x30);
    Statement(Digits(uid), 0x3030_3030, salt, salt, Digits(name), key, Digits(message))
  }

  ghost predicate AllDigits(b: Bytes) {
    forall i :: 0 <= i < |b| ==> b[i] == 0x30
  }

  lemma {:induction false} DigitsFrom(fields: seq<Bytes>, i: nat)
    requires i <= |fields| && forall j :: i <= j < |fields| ==> AllDigits(fields[j])
    ensures AllDigits(Concat(fields[i..]))
    decreases |fields| - i
  {
    if i < |fields| {
      ConcatFrom(fields, i);
      DigitsFrom(fields, i + 1);
    }
  }

  function TotalLength(fields: seq<Bytes>, i: nat): nat
    requires i <= |fields|
    decreases |fields| - i
  {
    if i == |fields| then 0 else |fields[i]| + TotalLength(fields, i + 1)
  }

  lemma {:induction false} LengthFrom(fields: seq<Bytes>, i: nat)
    requires i <= |fields|
    ensures |Concat(fields[i..])| == TotalLength(fields, i)
    decreases |fields| - i
  {
    if i < |fields| {
      ConcatFrom(fields, i);
      LengthFrom(fields, i + 1);
    }
  }

  lemma {:induction false} StatementLength(s: Statement)
    ensures |SignPreimage(s)| == |s.uid| + |s.signerLabel| + |s.message| + 84
  {
    var f := StatementFields(s);
    LengthFrom(f, 0);
    assert f[0..] == f;
    assert TotalLength(f, 7) == |f[7]|;
    assert TotalLength(f, 6) == |f[6]| + |f[7]|;
    assert TotalLength(f, 4) == |f[4]| + |f[5]| + TotalLength(f, 6);
    assert TotalLength(f, 2) == |f[2]| + |f[3]| + TotalLength(f, 4);
  }

  /** The hashed bytes of such a statement: the domain, then digits, as many as the fields have bytes. */
  ghost predicate DigitBytes(b: Bytes, n: nat) {
    && |b| == n + 16 && b[..16] == SignDomain()
    && forall i :: 16 <= i < |b| ==> b[i] == 0x30
  }

  lemma SameDigitBytes(a: Bytes, b: Bytes, n: nat)
    requires DigitBytes(a, n) && DigitBytes(b, n)
    ensures a == b
  {
    assert a == a[..16] + a[16..] && b == b[..16] + b[16..];
  }

  lemma {:induction false} DigitFields(uid: nat, name: nat, message: nat, i: nat)
    requires 1 <= i < 8
    ensures AllDigits(StatementFields(DigitStatement(uid, name, message))[i])
  {
    assert Be32(0x3030_3030) == [0x30, 0x30, 0x30, 0x30];
  }

  lemma {:induction false} DigitPreimage(uid: nat, name: nat, message: nat)
    ensures DigitBytes(SignPreimage(DigitStatement(uid, name, message)), uid + name + message + 68)
  {
    var f := StatementFields(DigitStatement(uid, name, message));
    forall i | 1 <= i < 8 ensures AllDigits(f[i]) {
      DigitFields(uid, name, message, i);
    }
    DigitsFrom(f, 1);
    assert f[0..] == f;
    ConcatFrom(f, 0);
    StatementLength(DigitStatement(uid, name, message));
  }

  ghost predicate HasLengths(s: Statement, uid: nat, name: nat) {
    |s.uid| == uid && |s.signerLabel| == name
  }

  /** Statements with these text lengths can be told apart by the bytes hashed. */
  ghost predicate ToldApart(uid: nat, name: nat, uid': nat, name': nat) {
    forall a, b :: HasLengths(a, uid, name) && HasLengths(b, uid', name') && SignPreimage(a) == SignPreimage(b) ==> a == b
  }

  /** The hashed bytes determine the statement between two pairs of lengths of uid and label
  if and only if the pairs are the same. */
  lemma ToldApartIff(uid: nat, name: nat, uid': nat, name': nat)
    ensures ToldApart(uid, name, uid', name') <==> uid == uid' && name == name'
  {
    if uid == uid' && name == name' {
      forall a, b | HasLengths(a, uid, name) && HasLengths(b, uid', name') && SignPreimage(a) == SignPreimage(b)
        ensures a == b
      {
        EqualLengthsEqualStatements(a, b);
      }
    } else {
      var a, b := DigitStatement(uid, name, uid' + name'), DigitStatement(uid', name', uid + name);
      DigitPreimage(uid, name, uid' + name');
      DigitPreimage(uid', name', uid + name);
      SameDigitBytes(SignPreimage(a), SignPreimage(b), uid + name + uid' + name' + 68);
      assert HasLengths(a, uid, name) && HasLengths(b, uid', name') && a != b;
    }
  }
}
