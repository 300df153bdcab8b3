/** Rosters as the package format and the authentication preimage lay them out:
a 16-bit count, then each label with its key bytes (`push_member_map`, `push_party_map`,
`take_member_map`, `take_party_map`). A member's value is its encryption key followed by
its signing key (64 bytes), a supervisor's its encryption key (32 bytes). */
module RosterCodec {
  import opened Errors
  import opened Field
  import opened Lists
  import opened Codec

  datatype Entry = Entry(name: Text, value: Bytes)

  /** Byte order, which is how a `BTreeMap<String, _>` orders its keys. */
  predicate Before(a: Bytes, b: Bytes) {
    if b == [] then false
    else if a == [] then true
    else a[0] < b[0] || (a[0] == b[0] && Before(a[1..], b[1..]))
  }

  lemma {:induction false} BeforeIsStrict(a: Bytes, b: Bytes)
    requires Before(a, b)
    ensures a != b && !Before(b, a)
  {
    if a != [] && a[0] == b[0] {
      BeforeIsStrict(a[1..], b[1..]);
    }
  }

  /** A `BTreeMap` by its entries in iteration order. */
  type Roster = seq<Entry>

  ghost predicate Ascending(m: Roster) {
    forall i, j :: 0 <= i < j < |m| ==> Before(m[i].name, m[j].name)
  }

  /** `BTreeMap::insert`: a second value for the same key replaces the first. */
  function Insert(m: Roster, e: Entry): Roster {
    if m == [] || Before(e.name, m[0].name) then [e] + m
    else if e.name == m[0].name then [e] + m[1..]
    else [m[0]] + Insert(m[1..], e)
  }

  lemma {:induction false} InsertLast(m: Roster, e: Entry)
    requires forall i :: 0 <= i < |m| ==> Before(m[i].name, e.name)
    ensures Insert(m, e) == m + [e]
  {
    if m != [] {
      BeforeIsStrict(m[0].name, e.name);
      InsertLast(m[1..], e);
    }
  }

  // ----- writing

  predicate NamesFit(m: Roster) {
    forall i :: 0 <= i < |m| ==> |m[i].name| < 0x1_0000
  }

  predicate Wide(m: Roster, width: nat) {
    forall i :: 0 <= i < |m| ==> |m[i].value| == width
  }

  function Rows(m: Roster): Bytes
    requires NamesFit(m)
  {
    if m == [] then [] else Prefixed(m[0].name) + (m[0].value + Rows(m[1..]))
  }

  predicate Fits(m: Roster) { |m| < 0x1_0000 && NamesFit(m) }

  function Image(m: Roster): Bytes
    requires Fits(m)
  {
    Be16(|m|) + Rows(m)
  }

  lemma {:induction false} RowsLast(m: Roster, e: Entry)
    requires NamesFit(m + [e])
    ensures NamesFit(m) && |e.name| < 0x1_0000
    ensures Rows(m + [e]) == Rows(m) + Prefixed(e.name) + e.value
  {
    assert (m + [e])[|m|] == e;
    forall i | 0 <= i < |m| ensures |m[i].name| < 0x1_0000 {
      assert (m + [e])[i] == m[i];
    }
    if m == [] {
      assert (m + [e])[1..] == [];
    } else {
      assert (m + [e])[1..] == m[1..] + [e];
      RowsLast(m[1..], e);
    }
  }

  lemma {:induction false} RowsFirst(m: Roster, rest: Bytes)
    requires NamesFit(m) && m != []
    ensures Rows(m) + rest == Prefixed(m[0].name) + (m[0].value + (Rows(m[1..]) + rest))
  {
  }

  lemma FitSoFar(start: Bytes, m: Roster, i: nat)
    requires i < |m| && NamesFit(m[..i])
    ensures |m[i].name| >= 0x1_0000 ==> !NamesFit(m)
    ensures |m[i].name| < 0x1_0000 ==> NamesFit(m[..i + 1])
    ensures |m[i].name| < 0x1_0000 ==>
      start + Rows(m[..i + 1]) == start + Rows(m[..i]) + Prefixed(m[i].name) + m[i].value
  {
    if |m[i].name| < 0x1_0000 {
      assert m[..i + 1] == m[..i] + [m[i]];
      RowsLast(m[..i], m[i]);
      Assoc(Rows(m[..i]), Prefixed(m[i].name), m[i].value);
      Assoc(start, Rows(m[..i]), Prefixed(m[i].name) + m[i].value);
      Assoc(start + Rows(m[..i]), Prefixed(m[i].name), m[i].value);
    }
  }

  method PushRow(out: Buffer, e: Entry) returns (r: Result<()>)
    requires out.Valid()
    modifies out
    ensures out.Valid()
    ensures if |e.name| >= 0x1_0000 then r == Err(BundleFieldTooLarge)
            else r == Ok(()) && out.bytes == old(out.bytes) + Prefixed(e.name) + e.value
  {
    var _ :- out.PushPrefixed(e.name);
    out.Push(e.value);
    return Ok(());
  }

  /** The loop of `push_member_map` and `push_party_map`. */
  method PushRows(out: Buffer, m: Roster) returns (r: Result<()>)
    requires out.Valid()
    modifies out
    ensures out.Valid()
    ensures if NamesFit(m) then r == Ok(()) && out.bytes == old(out.bytes) + Rows(m)
            else r == Err(BundleFieldTooLarge)
  {
    ghost var start := out.bytes;
    var i := 0;
    while i < |m|
      invariant 0 <= i <= |m| && out.Valid() && NamesFit(m[..i])
      invariant out.bytes == start + Rows(m[..i])
    {
      FitSoFar(start, m, i);
      var _ :- PushRow(out, m[i]);
      i := i + 1;
    }
    assert m[..i] == m;
    return Ok(());
  }

  /** `push_member_map` and `push_party_map`. */
  method Push(out: Buffer, m: Roster) returns (r: Result<()>)
    requires out.Valid()
    modifies out
    ensures out.Valid()
    ensures if Fits(m) then r.Ok? && out.fields == old(out.fields) + [Image(m)]
            else r == Err(BundleFieldTooLarge)
  {
    if |m| >= 0x1_0000 {
      return Err(BundleFieldTooLarge);
    }
    ghost var start, before := out.bytes, out.fields;
    out.Push(Be16(|m|));
    var _ :- PushRows(out, m);
    assert out.bytes == start + Image(m);
    ConcatLast(before, Image(m));
    out.fields := before + [Image(m)];
    return Ok(());
  }

  // ----- reading

  function TakeRow(data: Bytes, width: nat, valid: Bytes -> bool): Taken<Entry> {
    var (name, d1) :- TakeText(data);
    var (value, d2) :- TakeN(d1, width);
    if valid(value) then Taken(Entry(name, value), d2) else Short
  }

  function RowTaker(width: nat, valid: Bytes -> bool): Bytes -> Taken<Entry> {
    (data: Bytes) => TakeRow(data, width, valid)
  }

  /** The remaining n rows, each read by `take` and inserted into m. */
  function TakeMany(take: Bytes -> Taken<Entry>, data: Bytes, n: nat, m: Roster): Taken<Roster>
    decreases n
  {
    if n == 0 then Taken(m, data) else
    match take(data)
    case Short => Short
    case Taken(e, rest) => TakeMany(take, rest, n - 1, Insert(m, e))
  }

  function TakeRows(data: Bytes, n: nat, width: nat, valid: Bytes -> bool, m: Roster): Taken<Roster> {
    TakeMany(RowTaker(width, valid), data, n, m)
  }

  lemma {:induction false} TakeRowsStep(data: Bytes, n: nat, width: nat, valid: Bytes -> bool, m: Roster)
    requires n > 0
    ensures TakeRows(data, n, width, valid, m) == match TakeRow(data, width, valid)
      case Short => Short
      case Taken(e, rest) => TakeRows(rest, n - 1, width, valid, Insert(m, e))
  {
  }

  function Take(data: Bytes, width: nat, valid: Bytes -> bool): Taken<Roster> {
    var (count, rest) :- TakeN(data, 2);
    TakeRows(rest, FromBe16(count), width, valid, [])
  }

  method NextRow(c: Cursor, width: nat, valid: Bytes -> bool) returns (r: Result<Entry>)
    modifies c
    ensures match TakeRow(old(c.data), width, valid)
      case Short => r == Err(InvalidBridgePackage)
      case Taken(e, rest) => r == Ok(e) && c.data == rest
  {
    var name :- c.TakeString();
    var value :- c.TakeBytes(width);
    return if valid(value) then Ok(Entry(name, value)) else Err(InvalidBridgePackage);
  }

  /** What the loop below is to return, given the n rows still to be read and the rows read so far. */
  ghost predicate LeadsTo(all: Taken<Roster>, data: Bytes, n: nat, width: nat, valid: Bytes -> bool, m: Roster) {
    all == TakeRows(data, n, width, valid, m)
  }

  /** One turn of the loop of `take_member_map` and `take_party_map`: a row read and inserted. */
  method NextInto(c: Cursor, n: nat, width: nat, valid: Bytes -> bool, m: Roster, ghost all: Taken<Roster>)
    returns (r: Result<Roster>)
    requires LeadsTo(all, c.data, n + 1, width, valid, m)
    modifies c
    ensures r.Err? ==> r == Err(InvalidBridgePackage) && all == Short
    ensures r.Ok? ==> LeadsTo(all, c.data, n, width, valid, r.value)
  {
    TakeRowsStep(c.data, n + 1, width, valid, m);
    var e :- NextRow(c, width, valid);
    return Ok(Insert(m, e));
  }

  /** The loop of `take_member_map` and `take_party_map`. */
  method NextRows(c: Cursor, n: nat, width: nat, valid: Bytes -> bool) returns (r: Result<Roster>)
    modifies c
    ensures match TakeRows(old(c.data), n, width, valid, [])
      case Short => r == Err(InvalidBridgePackage)
      case Taken(m, rest) => r == Ok(m) && c.data == rest
  {
    ghost var all := TakeRows(c.data, n, width, valid, []);
    var m: Roster := [];
    var left := n;
    while left > 0
      invariant LeadsTo(all, c.data, left, width, valid, m)
    {
      left := left - 1;
      m :- NextInto(c, left, width, valid, m, all);
    }
    return Ok(m);
  }

  /** `take_member_map` and `take_party_map`; `valid` is the check of a member's signing key. */
  method TakeRoster(c: Cursor, width: nat, valid: Bytes -> bool) returns (r: Result<Roster>)
    modifies c
    ensures match Take(old(c.data), width, valid)
      case Short => r == Err(InvalidBridgePackage)
      case Taken(m, rest) => r == Ok(m) && c.data == rest
  {
    var count :- c.TakeBytes(2);
    r := NextRows(c, FromBe16(count), width, valid);
  }

  ghost predicate Readable(m: Roster, width: nat, valid: Bytes -> bool) {
    Fits(m) && Wide(m, width) && Ascending(m) && forall i :: 0 <= i < |m| ==> valid(m[i].value)
  }

  ghost predicate AllBefore(done: Roster, m: Roster) {
    forall i, j :: 0 <= i < |done| && 0 <= j < |m| ==> Before(done[i].name, m[j].name)
  }

  lemma {:induction false} TakeRowFront(e: Entry, tail: Bytes, n: nat, width: nat, valid: Bytes -> bool, done: Roster)
    requires |e.name| < 0x1_0000 && |e.value| == width && valid(e.value)
    ensures TakeRows(Prefixed(e.name) + (e.value + tail), n + 1, width, valid, done)
         == TakeRows(tail, n, width, valid, Insert(done, e))
  {
    TakeTextFront(e.name, e.value + tail);
    TakeFront(e.value, tail);
  }

  lemma {:induction false} ReadableTail(m: Roster, width: nat, valid: Bytes -> bool, done: Roster)
    requires Readable(m, width, valid) && AllBefore(done, m) && m != []
    ensures |m[0].name| < 0x1_0000 && |m[0].value| == width && valid(m[0].value)
    ensures Readable(m[1..], width, valid) && AllBefore(done + [m[0]], m[1..])
    ensures Insert(done, m[0]) == done + [m[0]]
  {
    InsertLast(done, m[0]);
  }

  lemma {:induction false} TakeRowsFront(m: Roster, width: nat, valid: Bytes -> bool, rest: Bytes, done: Roster)
    requires Readable(m, width, valid) && AllBefore(done, m)
    ensures TakeRows(Rows(m) + rest, |m|, width, valid, done) == Taken(done + m, rest)
  {
    if m == [] {
      assert done + m == done && Rows(m) + rest == rest;
    } else {
      var e, t := m[0], m[1..];
      var tail := Rows(t) + rest;
      ReadableTail(m, width, valid, done);
      RowsFirst(m, rest);
      TakeRowFront(e, tail, |t|, width, valid, done);
      TakeRowsFront(t, width, valid, rest, done + [e]);
      Assoc(done, [e], t);
      assert [e] + t == m;
    }
  }

  /** A roster written and read back is the same roster. */
  lemma TakeFrontRoster(m: Roster, width: nat, valid: Bytes -> bool, rest: Bytes)
    requires Readable(m, width, valid)
    ensures Take(Image(m) + rest, width, valid) == Taken(m, rest)
  {
    var tail := Rows(m) + rest;
    assert Image(m) + rest == Be16(|m|) + tail;
    TakeFront(Be16(|m|), tail);
    Be16Inverse(|m|, Be16(|m|));
    TakeRowsFront(m, width, valid, rest, []);
    assert [] + m == m;
  }

  // ----- injectivity

  lemma Strip(a: Bytes, x: Bytes, b: Bytes, y: Bytes)
    requires |a| == |b| && a + x == b + y
    ensures a == b && x == y
  {
    assert a == (a + x)[..|a|] && b == (b + y)[..|b|];
    assert x == (a + x)[|a|..] && y == (b + y)[|b|..];
  }

  lemma StripPrefixed(a: Bytes, x: Bytes, b: Bytes, y: Bytes)
    requires |a| < 0x1_0000 && |b| < 0x1_0000 && Prefixed(a) + x == Prefixed(b) + y
    ensures a == b && x == y
  {
    assert Prefixed(a) + x == Be16(|a|) + (a + x) && Prefixed(b) + y == Be16(|b|) + (b + y);
    Strip(Be16(|a|), a + x, Be16(|b|), b + y);
    Be16Inverse(|a|, Be16(|a|));
    Be16Inverse(|b|, Be16(|b|));
    Strip(a, x, b, y);
  }

  lemma {:induction false} StripRows(a: Roster, x: Bytes, b: Roster, y: Bytes, width: nat)
    requires |a| == |b| && NamesFit(a) && NamesFit(b) && Wide(a, width) && Wide(b, width)
    requires Rows(a) + x == Rows(b) + y
    ensures a == b && x == y
  {
    if a == [] {
      assert Rows(a) + x == x && Rows(b) + y == y;
    } else {
      var s, t := Rows(a[1..]) + x, Rows(b[1..]) + y;
      RowsFirst(a, x);
      RowsFirst(b, y);
      StripPrefixed(a[0].name, a[0].value + s, b[0].name, b[0].value + t);
      Strip(a[0].value, s, b[0].value, t);
      StripRows(a[1..], x, b[1..], y, width);
      assert a == [a[0]] + a[1..] && b == [b[0]] + b[1..];
    }
  }

  /** No two different rosters of the same width look the same, whatever follows them. */
  lemma StripRoster(a: Roster, x: Bytes, b: Roster, y: Bytes, width: nat)
    requires Fits(a) && Fits(b) && Wide(a, width) && Wide(b, width)
    requires Image(a) + x == Image(b) + y
    ensures a == b && x == y
  {
    assert Image(a) + x == Be16(|a|) + (Rows(a) + x) && Image(b) + y == Be16(|b|) + (Rows(b) + y);
    Strip(Be16(|a|), Rows(a) + x, Be16(|b|), Rows(b) + y);
    Be16Inverse(|a|, Be16(|a|));
    Be16Inverse(|b|, Be16(|b|));
    StripRows(a, x, b, y, width);
  }
}
