/** Which bytes the package decoder accepts and what it makes of them: rosters in any order, the last row of a label
counting, and any non-zero byte as a flag (`decode_package` in `src/private_bridge.rs`). */
module PackageExact {
  import opened Errors
  import opened Field
  import opened Lists
  import opened Codec
  import opened RosterCodec
  import P = PackageCodec

  // ----- rosters

  lemma {:induction false} BeforeTotal(a: Bytes, b: Bytes)
    ensures Before(a, b) || a == b || Before(b, a)
  {
    if a != [] && b != [] && a[0] == b[0] {
      BeforeTotal(a[1..], b[1..]);
      assert a == [a[0]] + a[1..] && b == [b[0]] + b[1..];
    }
  }

  lemma {:induction false} BeforeTrans(a: Bytes, b: Bytes, c: Bytes)
    requires Before(a, b) && Before(b, c)
    ensures Before(a, c)
  {
    if a != [] && a[0] == b[0] == c[0] {
      BeforeTrans(a[1..], b[1..], c[1..]);
    }
  }

  /** Inserting a row puts it in its place and takes the row with its label out. */
  lemma {:induction false} InsertIs(m: Roster, e: Entry)
    requires Ascending(m)
    ensures Ascending(Insert(m, e))
    ensures forall x :: x in Insert(m, e) <==> x == e || (x in m && x.name != e.name)
  {
    if m != [] {
      var rest := m[1..];
      assert m == [m[0]] + rest;
      InsertIs(rest, e);
      AfterHead(m);
      BeforeTotal(e.name, m[0].name);
      if Before(e.name, m[0].name) {
        BeforeAll(m, e);
      } else if e.name == m[0].name {
        Headed([e], rest);
      } else {
        Headed([m[0]], Insert(rest, e));
      }
    }
  }

  lemma AfterHead(m: Roster)
    requires Ascending(m) && m != []
    ensures Ascending(m[1..]) && forall x :: x in m[1..] ==> Before(m[0].name, x.name) && x.name != m[0].name
  {
    forall x | x in m[1..] ensures Before(m[0].name, x.name) && x.name != m[0].name {
      var i :| 0 <= i < |m[1..]| && m[1..][i] == x;
      assert m[i + 1] == x;
      BeforeIsStrict(m[0].name, x.name);
    }
  }

  lemma BeforeAll(m: Roster, e: Entry)
    requires Ascending(m) && m != [] && Before(e.name, m[0].name)
    ensures Ascending([e] + m) && forall x :: x in m ==> x.name != e.name
  {
    forall i | 0 <= i < |m| ensures Before(e.name, m[i].name) && m[i].name != e.name {
      if i > 0 {
        BeforeTrans(e.name, m[0].name, m[i].name);
      }
      BeforeIsStrict(e.name, m[i].name);
    }
  }

  lemma Headed(head: Roster, rest: Roster)
    requires |head| == 1 && Ascending(rest) && forall x :: x in rest ==> Before(head[0].name, x.name)
    ensures Ascending(head + rest)
  {
    forall j | 0 <= j < |rest| ensures Before(head[0].name, rest[j].name) {
      assert rest[j] in rest;
    }
  }

  /** The map the rows make, inserted one after the other. */
  function Filed(m: Roster, rows: Roster): Roster
    decreases rows
  {
    if rows == [] then m else Filed(Insert(m, rows[0]), rows[1..])
  }

  /** Row x is the last of its label. */
  ghost predicate LastRow(rows: Roster, x: Entry) {
    exists i :: 0 <= i < |rows| && rows[i] == x && forall j :: i < j < |rows| ==> rows[j].name != x.name
  }

  /** The last row of each label, in label order. */
  lemma {:induction false} FiledIs(m: Roster, rows: Roster)
    requires Ascending(m)
    ensures Ascending(Filed(m, rows))
    ensures forall x :: x in Filed(m, rows) <==>
      LastRow(rows, x) || (x in m && forall j :: 0 <= j < |rows| ==> rows[j].name != x.name)
    decreases rows
  {
    if rows != [] {
      var e, rest := rows[0], rows[1..];
      InsertIs(m, e);
      FiledIs(Insert(m, e), rest);
      forall x ensures x in Filed(m, rows) <==>
        LastRow(rows, x) || (x in m && forall j :: 0 <= j < |rows| ==> rows[j].name != x.name)
      {
        LastRowNext(rows, x);
      }
    }
  }

  lemma LastRowNext(rows: Roster, x: Entry)
    requires rows != []
    ensures LastRow(rows, x) <==>
      LastRow(rows[1..], x) || (x == rows[0] && forall j :: 0 <= j < |rows[1..]| ==> rows[1..][j].name != x.name)
    ensures (forall j :: 0 <= j < |rows| ==> rows[j].name != x.name) <==>
      rows[0].name != x.name && forall j :: 0 <= j < |rows[1..]| ==> rows[1..][j].name != x.name
  {
    var rest := rows[1..];
    forall j | 0 < j < |rows| ensures rows[j] == rest[j - 1] {
    }
    if LastRow(rest, x) {
      var i :| 0 <= i < |rest| && rest[i] == x && forall j :: i < j < |rest| ==> rest[j].name != x.name;
      assert rows[i + 1] == x;
    }
    if LastRow(rows, x) {
      var i :| 0 <= i < |rows| && rows[i] == x && forall j :: i < j < |rows| ==> rows[j].name != x.name;
      if i > 0 {
        assert rest[i - 1] == x;
      }
    }
  }

  /** Rows as the reader accepts them. */
  ghost predicate RowsOk(rows: Roster, width: nat, valid: Bytes -> bool) {
    NamesFit(rows) && Wide(rows, width) && forall i :: 0 <= i < |rows| ==> valid(rows[i].value)
  }

  /** The reader takes a row exactly from its bytes. */
  ghost predicate TakesRows(take: Bytes -> Taken<Entry>, width: nat, valid: Bytes -> bool) {
    forall data, e, after :: take(data) == Taken(e, after) <==> RowAt(data, width, valid, e, after)
  }

  ghost predicate RowAt(data: Bytes, width: nat, valid: Bytes -> bool, e: Entry, after: Bytes) {
    |e.name| < 0x1_0000 && |e.value| == width && valid(e.value) && data == Prefixed(e.name) + (e.value + after)
  }

  lemma RowTakerTakes(width: nat, valid: Bytes -> bool)
    ensures TakesRows(RowTaker(width, valid), width, valid)
  {
    forall data, e, after ensures RowTaker(width, valid)(data) == Taken(e, after) <==> RowAt(data, width, valid, e, after) {
      if RowAt(data, width, valid, e, after) {
        TakeTextFront(e.name, e.value + after);
        TakeFront(e.value, after);
      }
    }
  }

  lemma RowsCons(e: Entry, t: Roster, width: nat, valid: Bytes -> bool, rest: Bytes)
    requires |e.name| < 0x1_0000 && |e.value| == width && valid(e.value) && RowsOk(t, width, valid)
    ensures RowsOk([e] + t, width, valid)
    ensures Rows([e] + t) + rest == Prefixed(e.name) + (e.value + (Rows(t) + rest))
    ensures forall m :: Filed(m, [e] + t) == Filed(Insert(m, e), t)
  {
    assert ([e] + t)[1..] == t;
    assert Rows([e] + t) == Prefixed(e.name) + (e.value + Rows(t));
  }

  lemma {:induction false} ManyRead(take: Bytes -> Taken<Entry>, rows: Roster, width: nat, valid: Bytes -> bool, m: Roster,
                                    rest: Bytes)
    requires TakesRows(take, width, valid) && RowsOk(rows, width, valid)
    ensures TakeMany(take, Rows(rows) + rest, |rows|, m) == Taken(Filed(m, rows), rest)
    decreases rows
  {
    if rows == [] {
      assert Rows(rows) + rest == rest;
    } else {
      var e, t := rows[0], rows[1..];
      assert rows == [e] + t;
      RowsCons(e, t, width, valid, rest);
      assert RowAt(Rows(rows) + rest, width, valid, e, Rows(t) + rest);
      ManyRead(take, t, width, valid, Insert(m, e), rest);
    }
  }

  lemma {:induction false} ManySpelled(take: Bytes -> Taken<Entry>, data: Bytes, n: nat, width: nat, valid: Bytes -> bool,
                                       m: Roster) returns (rows: Roster)
    requires TakesRows(take, width, valid) && TakeMany(take, data, n, m).Taken?
    ensures |rows| == n && RowsOk(rows, width, valid) && data == Rows(rows) + TakeMany(take, data, n, m).rest
    ensures TakeMany(take, data, n, m).value == Filed(m, rows)
    decreases n
  {
    if n == 0 {
      rows := [];
    } else {
      var e, after := take(data).value, take(data).rest;
      assert RowAt(data, width, valid, e, after);
      var t := ManySpelled(take, after, n - 1, width, valid, Insert(m, e));
      rows := [e] + t;
      RowsCons(e, t, width, valid, TakeMany(take, data, n, m).rest);
    }
  }

  /** A roster is read exactly from its count and rows, in whatever order, and is the map they make. */
  lemma {:induction false} RosterIff(data: Bytes, width: nat, valid: Bytes -> bool, m: Roster, rest: Bytes)
    ensures Take(data, width, valid) == Taken(m, rest) <==>
      exists rows :: RosterSpelled(data, width, valid, m, rest, rows)
  {
    if Take(data, width, valid) == Taken(m, rest) {
      var count := TakeN(data, 2);
      Be16Inverse(0, count.value);
      RowTakerTakes(width, valid);
      var rows := ManySpelled(RowTaker(width, valid), count.rest, FromBe16(count.value), width, valid, []);
      assert data == Be16(|rows|) + (Rows(rows) + rest);
      assert RosterSpelled(data, width, valid, m, rest, rows);
    }
    if rows :| RosterSpelled(data, width, valid, m, rest, rows) {
      RosterRead(rows, width, valid, rest);
    }
  }

  ghost predicate RosterSpelled(data: Bytes, width: nat, valid: Bytes -> bool, m: Roster, rest: Bytes, rows: Roster) {
    RowsOk(rows, width, valid) && |rows| < 0x1_0000 && data == Image(rows) + rest && m == Filed([], rows)
  }

  lemma CountRead(rows: Roster, rest: Bytes)
    requires NamesFit(rows) && |rows| < 0x1_0000
    ensures TakeN(Image(rows) + rest, 2) == Taken(Be16(|rows|), Rows(rows) + rest) && FromBe16(Be16(|rows|)) == |rows|
  {
    assert Image(rows) + rest == Be16(|rows|) + (Rows(rows) + rest);
    TakeFront(Be16(|rows|), Rows(rows) + rest);
    Be16Inverse(|rows|, Be16(|rows|));
  }

  lemma RosterRead(rows: Roster, width: nat, valid: Bytes -> bool, rest: Bytes)
    requires RowsOk(rows, width, valid) && |rows| < 0x1_0000
    ensures Take(Image(rows) + rest, width, valid) == Taken(Filed([], rows), rest)
  {
    CountRead(rows, rest);
    RowTakerTakes(width, valid);
    ManyRead(RowTaker(width, valid), rows, width, valid, [], rest);
  }

  // ----- the envelope

  /** The outer header is read exactly from its own bytes. */
  lemma EnvelopeIff(data: Bytes, e: P.Envelope)
    ensures Codec.Whole(P.ReadOuter(data)) == Ok(e) <==>
      |e.sealed| < 0x1_0000_0000 && data == Concat(P.OuterFields(e))
  {
    if Codec.Whole(P.ReadOuter(data)) == Ok(e) {
      EnvelopeSpelled(data, e);
    }
    if |e.sealed| < 0x1_0000_0000 && data == Concat(P.OuterFields(e)) {
      P.OuterRoundTrip(e);
    }
  }

  lemma EnvelopeSpelled(data: Bytes, e: P.Envelope)
    requires P.ReadOuter(data) == Taken(e, [])
    ensures |e.sealed| < 0x1_0000_0000 && data == Concat(P.OuterFields(e))
  {
    var rest := EnvelopeParts(data, e);
    SealedSpelled(rest, e.sealed);
    OuterIs(e);
  }

  /** A byte string behind its length in four bytes, with nothing after it. */
  predicate SealedAt(data: Bytes, sealed: Bytes) {
    TakeN(data, 4).Taken? && TakeN(TakeN(data, 4).rest, FromBe32(TakeN(data, 4).value)) == Taken(sealed, [])
  }

  lemma EnvelopeParts(data: Bytes, e: P.Envelope) returns (rest: Bytes)
    requires P.ReadOuter(data) == Taken(e, [])
    ensures data == P.Magic() + (P.Version() + ([e.kind] + (e.recipient + rest))) && SealedAt(rest, e.sealed)
  {
    var version := TakeN(TakeN(data, 4).rest, 1);
    var kind := TakeN(version.rest, 1);
    assert kind.value == [e.kind];
    rest := TakeN(kind.rest, 32).rest;
  }

  lemma SealedSpelled(data: Bytes, sealed: Bytes)
    requires SealedAt(data, sealed)
    ensures |sealed| < 0x1_0000_0000 && data == Be32(|sealed|) + sealed
  {
    Be32Inverse(0, TakeN(data, 4).value);
    assert sealed + [] == sealed;
  }

  lemma OuterIs(e: P.Envelope)
    requires |e.sealed| < 0x1_0000_0000
    ensures Concat(P.OuterFields(e)) ==
      P.Magic() + (P.Version() + ([e.kind] + (e.recipient + (Be32(|e.sealed|) + e.sealed))))
  {
    var f := P.OuterFields(e);
    assert f[0..] == f;
    ConcatFrom(f, 0);
    ConcatFrom(f, 1);
    ConcatFrom(f, 2);
    ConcatFrom(f, 3);
    ConcatFrom(f, 4);
    ConcatFrom(f, 5);
    assert f[6..] == [] && e.sealed + [] == e.sealed;
  }

  /** The recipient key is had from exactly the well-formed envelopes. */
  lemma RoutesExactly(data: Bytes)
    ensures Codec.Whole(P.ReadOuter(data)).Ok? <==>
      exists e: P.Envelope :: |e.sealed| < 0x1_0000_0000 && data == Concat(P.OuterFields(e))
  {
    if Codec.Whole(P.ReadOuter(data)).Ok? {
      EnvelopeIff(data, Codec.Whole(P.ReadOuter(data)).value);
    }
    if e: P.Envelope :| |e.sealed| < 0x1_0000_0000 && data == Concat(P.OuterFields(e)) {
      EnvelopeIff(data, e);
    }
  }

  // ----- the letter

  /** What a letter's bytes may vary in: the rows its rosters are written as, and its two flags. */
  datatype Spelling = Spelling(members: Roster, supervisors: Roster, secretFlag: Byte, authFlag: Byte)

  /** A member's row holds its encryption key and then a valid signing key, a supervisor's its encryption key. */
  ghost predicate KeysOk(c: P.Crypto, members: Roster, supervisors: Roster) {
    && NamesFit(members) && NamesFit(supervisors)
    && (forall i :: 0 <= i < |members| ==> |members[i].value| == 64 && c.verifying(members[i].value[32..]))
    && (forall i :: 0 <= i < |supervisors| ==> |supervisors[i].value| == 32)
  }

  lemma KeysOkIff(c: P.Crypto, members: Roster, supervisors: Roster)
    ensures KeysOk(c, members, supervisors) <==>
      RowsOk(members, P.MEMBER_WIDTH, P.MemberCheck(c)) && RowsOk(supervisors, P.SUPERVISOR_WIDTH, _ => true)
  {
    forall i | 0 <= i < |members| && |members[i].value| == 64
      ensures P.MemberCheck(c)(members[i].value) <==> c.verifying(members[i].value[32..])
    {
      assert P.Signing(members[i].value) == members[i].value[32..];
    }
    if RowsOk(members, P.MEMBER_WIDTH, P.MemberCheck(c)) {
      forall i | 0 <= i < |members| ensures |members[i].value| == 64 && c.verifying(members[i].value[32..]) {
        assert P.MemberCheck(c)(members[i].value);
      }
    }
  }

  ghost predicate SpellingOk(c: P.Crypto, l: P.Letter, sp: Spelling) {
    && KeysOk(c, sp.members, sp.supervisors) && |sp.members| < 0x1_0000 && |sp.supervisors| < 0x1_0000
    && l.members == Filed([], sp.members) && l.supervisors == Filed([], sp.supervisors)
    && P.HeadFits(l) && |l.removedLabel| < 0x1_0000 && (l.wrapSalt.Some? <==> l.secret.Some?)
    && (sp.secretFlag == 0 <==> l.secret.None?) && (sp.authFlag == 0 <==> l.authSig.None?)
  }

  function SecretBytes(wrapSalt: Option<Salt>, secret: Option<Key>, flag: Byte): Bytes
    requires wrapSalt.Some? <==> secret.Some?
  {
    [flag] + if secret.None? then [] else wrapSalt.value + secret.value
  }

  function AuthBytes(authSig: Option<Signature>, flag: Byte): Bytes {
    [flag] + if authSig.None? then [] else authSig.value
  }

  lemma SecretRead(data: Bytes, wrapSalt: Option<Salt>, secret: Option<Key>, flag: Byte, rest: Bytes)
    requires (wrapSalt.Some? <==> secret.Some?) && (flag == 0 <==> secret.None?)
    requires data == SecretBytes(wrapSalt, secret, flag) + rest
    ensures P.ReadSecret(data) == Taken((wrapSalt, secret), rest)
  {
    if secret.None? {
      TakeFront([flag], rest);
    } else {
      Assoc([flag], wrapSalt.value + secret.value, rest);
      Assoc(wrapSalt.value, secret.value, rest);
      TakeFront([flag], wrapSalt.value + (secret.value + rest));
      TakeFront(wrapSalt.value, secret.value + rest);
      TakeFront(secret.value, rest);
    }
  }

  lemma SecretSpelled(data: Bytes) returns (flag: Byte)
    requires P.ReadSecret(data).Taken?
    ensures var (wrapSalt, secret) := P.ReadSecret(data).value;
      && (wrapSalt.Some? <==> secret.Some?) && (flag == 0 <==> secret.None?)
      && data == SecretBytes(wrapSalt, secret, flag) + P.ReadSecret(data).rest
  {
    flag := data[0];
    assert TakeN(data, 1).value == [flag];
  }

  lemma AuthRead(data: Bytes, authSig: Option<Signature>, flag: Byte, rest: Bytes)
    requires (flag == 0 <==> authSig.None?) && data == AuthBytes(authSig, flag) + rest
    ensures P.ReadAuth(data) == Taken(authSig, rest)
  {
    if authSig.None? {
      TakeFront([flag], rest);
    } else {
      Assoc([flag], authSig.value, rest);
      TakeFront([flag], authSig.value + rest);
      TakeFront(authSig.value, rest);
    }
  }

  lemma AuthSpelled(data: Bytes) returns (flag: Byte)
    requires P.ReadAuth(data).Taken?
    ensures flag == 0 <==> P.ReadAuth(data).value.None?
    ensures data == AuthBytes(P.ReadAuth(data).value, flag) + P.ReadAuth(data).rest
  {
    flag := data[0];
    assert TakeN(data, 1).value == [flag];
  }

  function BodyBytes(l: P.Letter, sp: Spelling): Bytes
    requires NamesFit(sp.members) && |sp.members| < 0x1_0000 && NamesFit(sp.supervisors) && |sp.supervisors| < 0x1_0000
    requires |l.removedLabel| < 0x1_0000 && (l.wrapSalt.Some? <==> l.secret.Some?)
  {
    Image(sp.members) + (Image(sp.supervisors) + (Prefixed(l.removedLabel)
    + (SecretBytes(l.wrapSalt, l.secret, sp.secretFlag) + AuthBytes(l.authSig, sp.authFlag))))
  }

  function HeadOf(l: P.Letter): P.Head {
    P.Head(P.Ids(l.uid, l.generation, l.bridgeLabel, l.publicKey, l.salt), l.recipientLabel, l.role)
  }

  lemma BodyRead(c: P.Crypto, l: P.Letter, sp: Spelling)
    requires SpellingOk(c, l, sp)
    ensures P.ReadBody(c, HeadOf(l), BodyBytes(l, sp)) == Taken(l, [])
  {
    KeysOkIff(c, sp.members, sp.supervisors);
    var auth := AuthBytes(l.authSig, sp.authFlag);
    var secret := SecretBytes(l.wrapSalt, l.secret, sp.secretFlag);
    var rest := Prefixed(l.removedLabel) + (secret + auth);
    RosterRead(sp.members, P.MEMBER_WIDTH, P.MemberCheck(c), Image(sp.supervisors) + rest);
    RosterRead(sp.supervisors, P.SUPERVISOR_WIDTH, _ => true, rest);
    TakeTextFront(l.removedLabel, secret + auth);
    SecretRead(secret + auth, l.wrapSalt, l.secret, sp.secretFlag, auth);
    assert auth + [] == auth;
    AuthRead(auth, l.authSig, sp.authFlag, []);
  }

  lemma BodyParts(c: P.Crypto, head: P.Head, data: Bytes, l: P.Letter)
    returns (afterMembers: Bytes, afterSupervisors: Bytes, afterLabel: Bytes, afterSecret: Bytes)
    requires P.ReadBody(c, head, data) == Taken(l, [])
    ensures Take(data, P.MEMBER_WIDTH, P.MemberCheck(c)) == Taken(l.members, afterMembers)
    ensures Take(afterMembers, P.SUPERVISOR_WIDTH, _ => true) == Taken(l.supervisors, afterSupervisors)
    ensures TakeText(afterSupervisors) == Taken(l.removedLabel, afterLabel)
    ensures P.ReadSecret(afterLabel) == Taken((l.wrapSalt, l.secret), afterSecret)
    ensures P.ReadAuth(afterSecret) == Taken(l.authSig, []) && head == HeadOf(l)
  {
    afterMembers := Take(data, P.MEMBER_WIDTH, P.MemberCheck(c)).rest;
    afterSupervisors := Take(afterMembers, P.SUPERVISOR_WIDTH, _ => true).rest;
    afterLabel := TakeText(afterSupervisors).rest;
    afterSecret := P.ReadSecret(afterLabel).rest;
  }

  lemma BodySpelled(c: P.Crypto, head: P.Head, data: Bytes, l: P.Letter) returns (sp: Spelling)
    requires P.ReadBody(c, head, data) == Taken(l, [])
    requires |head.ids.uid| < 0x1_0000 && |head.ids.bridgeLabel| < 0x1_0000 && |head.recipientLabel| < 0x1_0000
    ensures SpellingOk(c, l, sp) && data == BodyBytes(l, sp) && head == HeadOf(l)
  {
    var d8, d9, d10, d11 := BodyParts(c, head, data, l);
    RosterIff(data, P.MEMBER_WIDTH, P.MemberCheck(c), l.members, d8);
    var ms :| RosterSpelled(data, P.MEMBER_WIDTH, P.MemberCheck(c), l.members, d8, ms);
    RosterIff(d8, P.SUPERVISOR_WIDTH, _ => true, l.supervisors, d9);
    var ss :| RosterSpelled(d8, P.SUPERVISOR_WIDTH, _ => true, l.supervisors, d9, ss);
    var secretFlag := SecretSpelled(d10);
    var authFlag := AuthSpelled(d11);
    KeysOkIff(c, ms, ss);
    sp := Spelling(ms, ss, secretFlag, authFlag);
    assert AuthBytes(l.authSig, authFlag) + [] == AuthBytes(l.authSig, authFlag);
  }

  lemma IdsSpelled(data: Bytes, ids: P.Ids, rest: Bytes)
    requires P.ReadIds(data) == Taken(ids, rest)
    ensures |ids.uid| < 0x1_0000 && |ids.bridgeLabel| < 0x1_0000
    ensures data == Prefixed(ids.uid) + (Be32(ids.generation) + (Prefixed(ids.bridgeLabel)
      + (ids.publicKey + (ids.salt + rest))))
  {
    Be32Inverse(0, TakeText(data).rest[..4]);
  }

  lemma RoleSpelled(data: Bytes, role: P.Role, rest: Bytes)
    requires P.ReadRole(data) == Taken(role, rest)
    ensures data == [P.RoleByte(role)] + rest
  {
    assert TakeN(data, 1).value == [P.RoleByte(role)];
  }

  lemma HeadSpelled(data: Bytes, head: P.Head, rest: Bytes)
    requires P.ReadHead(data) == Taken(head, rest)
    ensures |head.ids.uid| < 0x1_0000 && |head.ids.bridgeLabel| < 0x1_0000 && |head.recipientLabel| < 0x1_0000
    ensures data == Prefixed(head.ids.uid) + (Be32(head.ids.generation) + (Prefixed(head.ids.bridgeLabel)
      + (head.ids.publicKey + (head.ids.salt + (Prefixed(head.recipientLabel) + ([P.RoleByte(head.role)] + rest))))))
  {
    var ids := P.ReadIds(data);
    IdsSpelled(data, head.ids, ids.rest);
    RoleSpelled(TakeText(ids.rest).rest, head.role, rest);
  }

  lemma HeadIs(l: P.Letter, rest: Bytes)
    requires P.HeadFits(l)
    ensures Concat(P.HeadFields(l)) + rest == Prefixed(l.uid) + (Be32(l.generation) + (Prefixed(l.bridgeLabel)
      + (l.publicKey + (l.salt + (Prefixed(l.recipientLabel) + ([P.RoleByte(l.role)] + rest))))))
  {
    var f := P.HeadFields(l) + [rest];
    ConcatLast(P.HeadFields(l), rest);
    assert f[0..] == f;
    ConcatFrom(f, 0);
    ConcatFrom(f, 1);
    ConcatFrom(f, 2);
    ConcatFrom(f, 3);
    ConcatFrom(f, 4);
    ConcatFrom(f, 5);
    ConcatFrom(f, 6);
    ConcatFrom(f, 7);
    assert f[8..] == [] && rest + [] == rest;
  }

  ghost predicate LetterBytes(c: P.Crypto, data: Bytes, l: P.Letter, sp: Spelling) {
    SpellingOk(c, l, sp) && data == Concat(P.HeadFields(l)) + BodyBytes(l, sp)
  }

  /** A letter is read exactly from its own bytes: the fields in their places, rosters as rows in any order of which
  the last of each label counts, and flags that are zero exactly where nothing follows. */
  lemma {:induction false} LetterIff(c: P.Crypto, data: Bytes, l: P.Letter)
    ensures Codec.Whole(P.ReadLetter(c, data)) == Ok(l) <==> exists sp :: LetterBytes(c, data, l, sp)
  {
    if Codec.Whole(P.ReadLetter(c, data)) == Ok(l) {
      var sp := LetterSpelled(c, data, l);
    }
    if sp :| LetterBytes(c, data, l, sp) {
      P.ReadHeadBack(l, BodyBytes(l, sp));
      BodyRead(c, l, sp);
    }
  }

  lemma LetterSpelled(c: P.Crypto, data: Bytes, l: P.Letter) returns (sp: Spelling)
    requires P.ReadLetter(c, data) == Taken(l, [])
    ensures LetterBytes(c, data, l, sp)
  {
    var head, rest := LetterParts(c, data, l);
    HeadSpelled(data, head, rest);
    sp := BodySpelled(c, head, rest, l);
    HeadIs(l, rest);
  }

  lemma LetterParts(c: P.Crypto, data: Bytes, l: P.Letter) returns (head: P.Head, rest: Bytes)
    requires P.ReadLetter(c, data) == Taken(l, [])
    ensures P.ReadHead(data) == Taken(head, rest) && P.ReadBody(c, head, rest) == P.ReadLetter(c, data)
  {
    head, rest := P.ReadHead(data).value, P.ReadHead(data).rest;
  }

  /** A package opens exactly if it is an envelope whose sealed bytes unseal under this key to a letter's bytes. */
  lemma {:induction false} OpenedIff(c: P.Crypto, bytes: Bytes, secret: Key, p: P.Decoded)
    ensures P.Opened(c, bytes, secret) == Ok(p) <==>
      exists sealed, sp :: EnvelopeOf(c, bytes, secret, p, sealed, sp)
  {
    if P.Opened(c, bytes, secret) == Ok(p) {
      var e := Codec.Whole(P.ReadOuter(bytes)).value;
      EnvelopeIff(bytes, e);
      var sp := LetterSpelled(c, c.unseal(secret, e.sealed).value, p.letter);
      assert EnvelopeOf(c, bytes, secret, p, e.sealed, sp);
    }
    if sealed, sp :| EnvelopeOf(c, bytes, secret, p, sealed, sp) {
      EnvelopeIff(bytes, P.Envelope(p.kind, p.recipient, sealed));
      LetterIff(c, c.unseal(secret, sealed).value, p.letter);
    }
  }

  ghost predicate EnvelopeOf(c: P.Crypto, bytes: Bytes, secret: Key, p: P.Decoded, sealed: Bytes, sp: Spelling) {
    && |sealed| < 0x1_0000_0000 && bytes == Concat(P.OuterFields(P.Envelope(p.kind, p.recipient, sealed)))
    && c.unseal(secret, sealed).Some? && LetterBytes(c, c.unseal(secret, sealed).value, p.letter, sp)
  }
}
