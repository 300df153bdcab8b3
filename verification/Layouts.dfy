/** The formats byte by byte: magics, versions and domains as numbers, lengths and counts in two or four bytes with the
high byte first, and the fields in their places. */
module Layouts {
  import opened Field
  import opened Codec
  import Roster = RosterCodec
  import Package = PackageCodec
  import Artifacts = SignatureCodec

  function Two(n: nat): (s: Bytes)
    requires n < 0x1_0000
  {
    [n / 0x100, n % 0x100]
  }

  function Four(n: nat): (s: Bytes)
    requires n < 0x1_0000_0000
  {
    [n / 0x100_0000, n / 0x1_0000 % 0x100, n / 0x100 % 0x100, n % 0x100]
  }

  /** A byte string behind its length. */
  function Counted(b: Bytes): Bytes
    requires |b| < 0x1_0000
  {
    Two(|b|) + b
  }

  lemma FourIs(n: U32)
    ensures Be32(n) == Four(n)
  {
    var high, low := n / 0x1_0000, n % 0x1_0000;
    HighByte(n);
    LowBytes(n);
    assert Be32(n) == [high / 0x100, high % 0x100] + [low / 0x100, low % 0x100];
  }

  lemma HighByte(n: U32)
    ensures n / 0x1_0000 / 0x100 == n / 0x100_0000
  {
  }

  lemma LowBytes(n: U32)
    ensures n % 0x1_0000 / 0x100 == n / 0x100 % 0x100 && n % 0x1_0000 % 0x100 == n % 0x100
  {
    assert n == n / 0x1_0000 * 0x1_0000 + n % 0x1_0000;
  }

  lemma Last(fields: seq<Bytes>, i: nat)
    requires i + 1 == |fields|
    ensures Concat(fields[i..]) == fields[i]
  {
    ConcatFrom(fields, i);
    assert fields[i + 1..] == [] && fields[i] + [] == fields[i];
  }

  lemma Three(fields: seq<Bytes>, i: nat)
    requires i + 3 <= |fields|
    ensures Concat(fields[i..]) == fields[i] + (fields[i + 1] + (fields[i + 2] + Concat(fields[i + 3..])))
  {
    ConcatFrom(fields, i);
    ConcatFrom(fields, i + 1);
    ConcatFrom(fields, i + 2);
  }

  lemma Whole(fields: seq<Bytes>)
    ensures Concat(fields) == Concat(fields[0..])
  {
    assert fields[0..] == fields;
  }

  /** A signature artifact, "KQBS" version 1. */
  lemma ArtifactLayout(a: Artifacts.Artifact)
    requires Artifacts.Encodable(a)
    ensures Artifacts.Image(a) ==
      [0x4B, 0x51, 0x42, 0x53] + ([1] + (Counted(a.uid) + (Four(a.generation) + (a.bridgeSalt + (a.signatureSalt
      + (Counted(a.signerLabel) + (a.signerPublicKey + (a.bridgeSignature + a.personalSignature))))))))
  {
    var f := Artifacts.Fields(a);
    FourIs(a.generation);
    Whole(f);
    Three(f, 0);
    Three(f, 3);
    Three(f, 6);
    Last(f, 9);
  }

  /** What a bridge signature's hash is fed, after "KQBRIDGE-SIGN-v1". */
  lemma StatementLayout(s: Artifacts.Statement)
    ensures Artifacts.SignPreimage(s) ==
      [0x4B, 0x51, 0x42, 0x52, 0x49, 0x44, 0x47, 0x45, 0x2D, 0x53, 0x49, 0x47, 0x4E, 0x2D, 0x76, 0x31]
      + (s.uid + (Four(s.generation) + (s.bridgeSalt + (s.signatureSalt + (s.signerLabel
      + (s.signerPublicKey + s.message))))))
  {
    var f := Artifacts.StatementFields(s);
    FourIs(s.generation);
    Whole(f);
    Three(f, 0);
    Three(f, 3);
    ConcatFrom(f, 6);
    Last(f, 7);
  }

  /** An envelope, "KQPB" version 2. */
  lemma EnvelopeLayout(e: Package.Envelope)
    requires |e.sealed| < 0x1_0000_0000
    ensures Concat(Package.OuterFields(e)) ==
      [0x4B, 0x51, 0x50, 0x42] + ([2] + ([e.kind] + (e.recipient + (Four(|e.sealed|) + e.sealed))))
  {
    var f := Package.OuterFields(e);
    FourIs(|e.sealed|);
    Whole(f);
    Three(f, 0);
    ConcatFrom(f, 3);
    ConcatFrom(f, 4);
    Last(f, 5);
  }

  /** Rows of a roster: each label behind its length, then its key bytes. */
  function RowBytes(m: Roster.Roster): Bytes
    requires Roster.NamesFit(m)
    decreases |m|
  {
    if m == [] then [] else RowBytes(m[..|m| - 1]) + (Counted(m[|m| - 1].name) + m[|m| - 1].value)
  }

  lemma {:induction false} RowsLayout(m: Roster.Roster)
    requires Roster.NamesFit(m)
    ensures Roster.Rows(m) == RowBytes(m)
  {
    if m != [] {
      var front, e := m[..|m| - 1], m[|m| - 1];
      assert m == front + [e];
      Roster.RowsLast(front, e);
      RowsLayout(front);
      assert Roster.Rows(front) + Prefixed(e.name) + e.value == Roster.Rows(front) + (Counted(e.name) + e.value);
    }
  }

  function RosterBytes(m: Roster.Roster): Bytes
    requires Roster.Fits(m)
  {
    Two(|m|) + RowBytes(m)
  }

  /** What an update signature's hash is fed, after "KQBRIDGE-UPDATE-v1". */
  lemma UpdateLayout(u: Package.Update)
    requires Package.UpdateFits(u)
    ensures Package.Preimage(u) ==
      [0x4B, 0x51, 0x42, 0x52, 0x49, 0x44, 0x47, 0x45, 0x2D, 0x55, 0x50, 0x44, 0x41, 0x54, 0x45, 0x2D, 0x76, 0x31]
      + (Counted(u.uid) + (Four(u.generation) + ([u.kind] + (u.publicKey + (u.salt + (Counted(u.recipientLabel)
      + (Counted(u.removedLabel) + (RosterBytes(u.members) + RosterBytes(u.supervisors)))))))))
  {
    var f := Package.UpdateFields(u);
    FourIs(u.generation);
    RowsLayout(u.members);
    RowsLayout(u.supervisors);
    Whole(f);
    Three(f, 0);
    Three(f, 3);
    Three(f, 6);
    Last(f, 9);
  }

  /** The letter inside: a flag byte before the secret and before the signature says whether they are there. */
  lemma LetterLayout(l: Package.Letter)
    requires Package.Fits(l) && (l.wrapSalt.Some? <==> l.secret.Some?)
    ensures Package.Image(l) ==
      (Counted(l.uid) + (Four(l.generation) + (Counted(l.bridgeLabel) + (l.publicKey + (l.salt
      + (Counted(l.recipientLabel) + [if l.role.Member? then 1 else 2]))))))
      + (RosterBytes(l.members) + (RosterBytes(l.supervisors) + (Counted(l.removedLabel)
      + ((if l.secret.Some? then [1] + (l.wrapSalt.value + l.secret.value) else [0])
      + if l.authSig.Some? then [1] + l.authSig.value else [0]))))
  {
    var f, b := Package.HeadFields(l), Package.BodyFields(l);
    FourIs(l.generation);
    RowsLayout(l.members);
    RowsLayout(l.supervisors);
    Whole(f);
    Three(f, 0);
    Three(f, 3);
    Last(f, 6);
    Whole(b);
    Three(b, 0);
    ConcatFrom(b, 3);
    Last(b, 4);
  }
}
