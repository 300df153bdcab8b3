/** The relay's mailbox (`src/relay/mailbox.rs`): a deduplicating store read page by page
behind a cursor. */
module MailboxRelay {
  import opened Errors
  import opened Field
  import Codec
  import PackageCodec

  /** SHA-256 taken as an ideal hash: equal digests come from equal inputs. */
  datatype Digest = Sha256(input: Bytes)

  datatype Envelope = Envelope(id: int, recipient: Digest, bytes: Bytes, contentHash: Digest)

  /** What a sender is told: the row that holds the envelope, and whether it was there before. */
  datatype Receipt = Receipt(id: int, recipient: Digest, duplicate: bool)

  datatype Page = Page(envelopes: seq<Envelope>, nextAfter: Option<int>)

  const DEFAULT_PAGE := 100
  const MAX_PAGE := 500

  /** Rows are in id order, and a recipient has each content once. */
  ghost predicate Ordered(rows: seq<Envelope>) {
    && (forall i :: 0 <= i < |rows| ==> 0 < rows[i].id)
    && (forall i, j :: 0 <= i < j < |rows| ==> rows[i].id < rows[j].id)
  }

  ghost predicate Deduplicated(rows: seq<Envelope>) {
    && (forall i :: 0 <= i < |rows| ==> rows[i].contentHash == Sha256(rows[i].bytes))
    && (forall i, j :: 0 <= i < j < |rows| ==>
          rows[i].recipient != rows[j].recipient || rows[i].contentHash != rows[j].contentHash)
  }

  /** Every row is filed under the key its own header names. */
  ghost predicate Routed(rows: seq<Envelope>) {
    forall i :: 0 <= i < |rows| ==> Route(rows[i].bytes) == Ok(rows[i].recipient)
  }

  ghost predicate Sound(rows: seq<Envelope>) {
    Ordered(rows) && Deduplicated(rows) && Routed(rows)
  }

  // ----- storing

  /** The fingerprint of the recipient key in the outer header. */
  function Route(envelope: Bytes): Result<Digest> {
    match Codec.Whole(PackageCodec.ReadOuter(envelope))
    case Ok(outer) => Ok(Sha256(outer.recipient))
    case Err(e) => Err(e)
  }

  /** The next primary key: rows are never deleted, so the last row has the largest id. */
  function NextId(rows: seq<Envelope>): int {
    if rows == [] then 1 else rows[|rows| - 1].id + 1
  }

  /** The row that holds this content for this recipient. */
  function Find(rows: seq<Envelope>, recipient: Digest, hash: Digest): (r: Option<nat>)
    ensures r.Some? ==> r.value < |rows| && rows[r.value].recipient == recipient && rows[r.value].contentHash == hash
    ensures r.None? ==> forall i :: 0 <= i < |rows| ==> rows[i].recipient != recipient || rows[i].contentHash != hash
  {
    if rows == [] then None
    else
      var n := |rows| - 1;
      if Find(rows[..n], recipient, hash).Some? then Find(rows[..n], recipient, hash)
      else if rows[n].recipient == recipient && rows[n].contentHash == hash then Some(n)
      else None
  }

  /** `store`: insert unless the recipient already has this content, and say which row holds
  it; a malformed header is refused. */
  function Deposited(rows: seq<Envelope>, envelope: Bytes): Result<(seq<Envelope>, Receipt)> {
    match Route(envelope)
    case Err(e) => Err(e)
    case Ok(recipient) =>
      match Find(rows, recipient, Sha256(envelope))
      case Some(i) => Ok((rows, Receipt(rows[i].id, recipient, true)))
      case None =>
        Ok((rows + [Envelope(NextId(rows), recipient, envelope, Sha256(envelope))], Receipt(NextId(rows), recipient, false)))
  }

  lemma AppendOrdered(rows: seq<Envelope>, e: Envelope)
    requires Ordered(rows) && e.id == NextId(rows)
    ensures Ordered(rows + [e])
  {
  }

  lemma AppendDeduplicated(rows: seq<Envelope>, e: Envelope)
    requires Deduplicated(rows) && e.contentHash == Sha256(e.bytes)
    requires forall i :: 0 <= i < |rows| ==> rows[i].recipient != e.recipient || rows[i].contentHash != e.contentHash
    ensures Deduplicated(rows + [e])
  {
  }

  lemma AppendRouted(rows: seq<Envelope>, e: Envelope)
    requires Routed(rows) && Route(e.bytes) == Ok(e.recipient)
    ensures Routed(rows + [e])
  {
  }

  lemma DepositKeepsSound(rows: seq<Envelope>, envelope: Bytes)
    requires Sound(rows) && Deposited(rows, envelope).Ok?
    ensures Sound(Deposited(rows, envelope).value.0)
  {
    var recipient := Route(envelope).value;
    if Find(rows, recipient, Sha256(envelope)).None? {
      var row := Envelope(NextId(rows), recipient, envelope, Sha256(envelope));
      AppendOrdered(rows, row);
      AppendDeduplicated(rows, row);
      AppendRouted(rows, row);
    }
  }

  /** The receipt of a well-formed envelope names the one row with its bytes, and it is a
  duplicate exactly if that row was there before. */
  lemma DepositedMeans(rows: seq<Envelope>, envelope: Bytes)
    requires Sound(rows)
    ensures Deposited(rows, envelope).Ok? <==> Route(envelope).Ok?
    ensures Deposited(rows, envelope).Ok? ==>
      var (after, receipt) := Deposited(rows, envelope).value;
      && Holds(after, receipt.id, envelope)
      && (receipt.duplicate <==> exists id :: Holds(rows, id, envelope))
      && (forall id, bytes :: Holds(after, id, bytes) <==> Holds(rows, id, bytes) || (id == receipt.id && bytes == envelope))
      && (!receipt.duplicate ==> NextAfter(rows, receipt.id))
  {
    if Route(envelope).Ok? {
      var found := Find(rows, Route(envelope).value, Sha256(envelope));
      if found.Some? {
        assert rows[found.value] in rows;
      } else {
        var row := Envelope(NextId(rows), Route(envelope).value, envelope, Sha256(envelope));
        assert row in rows + [row];
        assert rows != [] ==> rows[|rows| - 1] in rows;
        forall e | e in rows ensures e.bytes != envelope {
          var i :| 0 <= i < |rows| && rows[i] == e;
        }
      }
    }
  }

  /** One more than the largest id, and one in an empty table. */
  ghost predicate NextAfter(rows: seq<Envelope>, id: int) {
    (forall e :: e in rows ==> e.id < id) && if rows == [] then id == 1 else exists e :: e in rows && e.id == id - 1
  }

  ghost predicate Holds(rows: seq<Envelope>, id: int, bytes: Bytes) {
    exists e :: e in rows && e.id == id && e.bytes == bytes
  }

  // ----- listing

  /** The envelopes for a recipient with an id above `after`, in id order. */
  function Above(rows: seq<Envelope>, recipient: Digest, after: int): seq<Envelope> {
    if rows == [] then []
    else (if rows[0].recipient == recipient && after < rows[0].id then [rows[0]] else [])
         + Above(rows[1..], recipient, after)
  }

  lemma {:induction false} AboveAre(rows: seq<Envelope>, recipient: Digest, after: int)
    ensures forall e :: e in Above(rows, recipient, after) ==> e in rows && e.recipient == recipient && after < e.id
  {
    if rows != [] {
      AboveAre(rows[1..], recipient, after);
      assert rows == [rows[0]] + rows[1..];
    }
  }

  lemma {:induction false} AboveComplete(rows: seq<Envelope>, recipient: Digest, after: int)
    ensures forall e :: e in rows && e.recipient == recipient && after < e.id ==> e in Above(rows, recipient, after)
  {
    if rows != [] {
      AboveComplete(rows[1..], recipient, after);
      assert rows == [rows[0]] + rows[1..];
    }
  }

  predicate LegalLimit(limit: Option<int>) {
    limit.None? || 1 <= limit.value <= MAX_PAGE
  }

  function PageSize(limit: Option<int>): (n: nat)
    requires LegalLimit(limit)
    ensures n > 0
  {
    if limit.None? then DEFAULT_PAGE else limit.value
  }

  /** `list_after`: at most a page of what lies above the cursor, and where to go on. */
  function PageAfter(rows: seq<Envelope>, recipient: Digest, after: Option<int>, limit: Option<int>): Result<Page> {
    if !LegalLimit(limit) then Err(InvalidInboxPage)
    else
      var n, es := PageSize(limit), Above(rows, recipient, if after.None? then 0 else after.value);
      if |es| > n then Ok(Page(es[..n], Some(es[n - 1].id))) else Ok(Page(es, None))
  }

  class Mailbox {
    var rows: seq<Envelope>

    ghost predicate Valid()
      reads this
    {
      Sound(rows)
    }

    constructor ()
      ensures Valid() && rows == []
    {
      rows := [];
    }

    /** The row that already holds this content for this recipient. */
    method Lookup(recipient: Digest, hash: Digest) returns (r: Option<nat>)
      ensures r == Find(rows, recipient, hash)
    {
      var i := 0;
      while i < |rows|
        invariant 0 <= i <= |rows|
        invariant Find(rows[..i], recipient, hash).None?
      {
        if rows[i].recipient == recipient && rows[i].contentHash == hash {
          FindFirst(rows, recipient, hash, i);
          return Some(i);
        }
        assert rows[..i + 1][..i] == rows[..i];
        i := i + 1;
      }
      assert rows[..i] == rows;
      return None;
    }

    /** `store` */
    method Store(envelope: Bytes) returns (r: Result<Receipt>)
      requires Valid()
      modifies this
      ensures Valid()
      ensures match Deposited(old(rows), envelope)
        case Err(e) => r == Err(e) && rows == old(rows)
        case Ok((after, receipt)) => r == Ok(receipt) && rows == after
    {
      var key :- PackageCodec.RoutingPublicKey(envelope);
      var recipient, hash := Sha256(key), Sha256(envelope);
      var found := Lookup(recipient, hash);
      if found.Some? {
        return Ok(Receipt(rows[found.value].id, recipient, true));
      }
      DepositKeepsSound(rows, envelope);
      var id := NextId(rows);
      rows := rows + [Envelope(id, recipient, envelope, hash)];
      return Ok(Receipt(id, recipient, false));
    }

    /** `list_after`: fetch one row more than a page and drop it again for the cursor. */
    method ListAfter(recipient: Digest, after: Option<int>, limit: Option<int>) returns (r: Result<Page>)
      ensures r == PageAfter(rows, recipient, after, limit)
    {
      if !LegalLimit(limit) {
        return Err(InvalidInboxPage);
      }
      var n := PageSize(limit);
      var es := Fetch(rows, recipient, if after.None? then 0 else after.value, n + 1);
      if |es| > n {
        assert es[..n] == Above(rows, recipient, Start(after))[..n];
        es := es[..n];
        return Ok(Page(es, Some(es[n - 1].id)));
      }
      return Ok(Page(es, None));
    }
  }

  lemma {:induction false} FindFirst(rows: seq<Envelope>, recipient: Digest, hash: Digest, i: nat)
    requires i < |rows| && rows[i].recipient == recipient && rows[i].contentHash == hash
    requires Find(rows[..i], recipient, hash).None?
    ensures Find(rows, recipient, hash) == Some(i)
  {
    var n := |rows| - 1;
    if i < n {
      assert rows[..n][..i] == rows[..i];
      FindFirst(rows[..n], recipient, hash, i);
    }
  }

  /** What was found in the first i rows, and what the others hold, are all that lies above the cursor. */
  ghost predicate Fetched(rows: seq<Envelope>, recipient: Digest, after: int, i: nat, es: seq<Envelope>) {
    i <= |rows| && Above(rows, recipient, after) == es + Above(rows[i..], recipient, after)
  }

  lemma {:induction false} FetchNext(rows: seq<Envelope>, recipient: Digest, after: int, i: nat, es: seq<Envelope>)
    requires i < |rows| && Fetched(rows, recipient, after, i, es)
    ensures Fetched(rows, recipient, after, i + 1,
                    if rows[i].recipient == recipient && after < rows[i].id then es + [rows[i]] else es)
  {
    AboveStep(rows, recipient, after, i);
    var wanted := if rows[i].recipient == recipient && after < rows[i].id then [rows[i]] else [];
    assert es + wanted + Above(rows[i + 1..], recipient, after) == es + (wanted + Above(rows[i + 1..], recipient, after));
  }

  lemma {:induction false} FetchDone(rows: seq<Envelope>, recipient: Digest, after: int, i: nat, es: seq<Envelope>, most: nat)
    requires Fetched(rows, recipient, after, i, es) && |es| <= most && (i == |rows| || |es| == most)
    ensures var all := Above(rows, recipient, after); es == if |all| > most then all[..most] else all
  {
    var rest := Above(rows[i..], recipient, after);
    assert (es + rest)[..|es|] == es;
    if i == |rows| {
      assert rest == [];
    }
  }

  /** The query behind a page: matching rows in id order, at most `most` of them. */
  method Fetch(rows: seq<Envelope>, recipient: Digest, after: int, most: nat) returns (es: seq<Envelope>)
    ensures var all := Above(rows, recipient, after); es == if |all| > most then all[..most] else all
  {
    es := [];
    var i := 0;
    assert rows[0..] == rows;
    while i < |rows| && |es| < most
      invariant 0 <= i <= |rows| && |es| <= most
      invariant Fetched(rows, recipient, after, i, es)
    {
      FetchNext(rows, recipient, after, i, es);
      if rows[i].recipient == recipient && after < rows[i].id {
        es := es + [rows[i]];
      }
      i := i + 1;
    }
    FetchDone(rows, recipient, after, i, es, most);
  }

  lemma {:induction false} AboveStep(rows: seq<Envelope>, recipient: Digest, after: int, i: nat)
    requires i < |rows|
    ensures Above(rows[i..], recipient, after)
         == (if rows[i].recipient == recipient && after < rows[i].id then [rows[i]] else [])
            + Above(rows[i + 1..], recipient, after)
  {
    assert rows[i..][1..] == rows[i + 1..];
  }

  // ----- reading on

  lemma {:induction false} AbovePrefix(rows: seq<Envelope>, more: seq<Envelope>, recipient: Digest, after: int)
    ensures Above(rows + more, recipient, after) == Above(rows, recipient, after) + Above(more, recipient, after)
  {
    if rows == [] {
      assert rows + more == more;
    } else {
      assert (rows + more)[1..] == rows[1..] + more;
      AbovePrefix(rows[1..], more, recipient, after);
    }
  }

  lemma ConsTail<T>(x: T, rest: seq<T>, m: nat)
    requires 0 < m <= |rest| + 1
    ensures ([x] + rest)[m..] == rest[m - 1..]
  {
  }

  /** The rows of es with an id above the cursor are those from m on. */
  ghost predicate CutAt(es: seq<Envelope>, cursor: int, m: nat) {
    && m <= |es|
    && (forall i :: 0 <= i < m ==> es[i].id <= cursor)
    && (forall i :: m <= i < |es| ==> cursor < es[i].id)
  }

  lemma CutCons(e: Envelope, rest: seq<Envelope>, cursor: int, m: nat)
    requires e.id <= cursor && CutAt(rest, cursor, m)
    ensures CutAt([e] + rest, cursor, m + 1) && ([e] + rest)[m + 1..] == rest[m..]
  {
    ConsTail(e, rest, m + 1);
  }

  /** Raising the cursor drops a front of the rows above it. */
  lemma {:induction false} HigherCursor(rows: seq<Envelope>, recipient: Digest, after: int, cursor: int) returns (m: nat)
    requires Ordered(rows) && after <= cursor
    ensures CutAt(Above(rows, recipient, after), cursor, m)
    ensures Above(rows, recipient, cursor) == Above(rows, recipient, after)[m..]
  {
    m := 0;
    if rows != [] && rows[0].id <= cursor {
      m := HigherCursor(rows[1..], recipient, after, cursor);
      if rows[0].recipient == recipient && after < rows[0].id {
        CutCons(rows[0], Above(rows[1..], recipient, after), cursor, m);
        m := m + 1;
      }
    } else if rows != [] {
      AllBeyond(rows, recipient, after, cursor);
    }
  }

  lemma AllBeyond(rows: seq<Envelope>, recipient: Digest, after: int, cursor: int)
    requires Ordered(rows) && rows != [] && after <= cursor < rows[0].id
    ensures CutAt(Above(rows, recipient, after), cursor, 0)
    ensures Above(rows, recipient, cursor) == Above(rows, recipient, after)
  {
    var es := Above(rows, recipient, after);
    AllAbove(rows, recipient, after, cursor);
    AboveAre(rows, recipient, after);
    forall i | 0 <= i < |es| ensures cursor < es[i].id {
      assert es[i] in rows;
    }
  }

  /** Reading on from the m-th envelope gives exactly the rest. */
  lemma {:induction false} AboveFrom(rows: seq<Envelope>, recipient: Digest, after: int, m: nat)
    requires Ordered(rows) && 0 < m <= |Above(rows, recipient, after)|
    ensures Above(rows, recipient, Above(rows, recipient, after)[m - 1].id) == Above(rows, recipient, after)[m..]
  {
    var es := Above(rows, recipient, after);
    AboveAre(rows, recipient, after);
    AboveInOrder(rows, recipient, after);
    assert es[m - 1] in es;
    var at := HigherCursor(rows, recipient, after, es[m - 1].id);
    assert m < |es| ==> es[m - 1].id < es[m].id;
    assert at == m;
  }

  ghost predicate InIdOrder(es: seq<Envelope>) {
    forall i, j :: 0 <= i < j < |es| ==> es[i].id < es[j].id
  }

  lemma {:induction false} AboveInOrder(rows: seq<Envelope>, recipient: Digest, after: int)
    requires Ordered(rows)
    ensures InIdOrder(Above(rows, recipient, after))
  {
    if rows != [] {
      AboveInOrder(rows[1..], recipient, after);
      AboveAre(rows[1..], recipient, after);
      var rest := Above(rows[1..], recipient, after);
      forall i | 0 <= i < |rest| ensures rows[0].id < rest[i].id {
        AfterFirst(rows, rest[i]);
      }
    }
  }

  lemma AfterFirst(rows: seq<Envelope>, e: Envelope)
    requires Ordered(rows) && rows != [] && e in rows[1..]
    ensures rows[0].id < e.id
  {
  }

  /** Raising the cursor below every row changes nothing. */
  lemma {:induction false} AllAbove(rows: seq<Envelope>, recipient: Digest, after: int, cursor: int)
    requires after <= cursor && forall i :: 0 <= i < |rows| ==> cursor < rows[i].id
    ensures Above(rows, recipient, cursor) == Above(rows, recipient, after)
  {
    if rows != [] {
      AllAbove(rows[1..], recipient, after, cursor);
    }
  }

  function Start(after: Option<int>): int { if after.None? then 0 else after.value }

  // ----- a reader of a mailbox that keeps growing

  /** What a reader has: where its next request starts, the envelopes it was given so far, and
  whether its last page was the end of its inbox then. */
  datatype Reader = Reader(cursor: Option<int>, got: seq<Envelope>, atEnd: bool)

  datatype State = State(rows: seq<Envelope>, reader: Reader)

  /** Someone stores an envelope, or the reader asks for its next page. */
  datatype Act = Deposit(envelope: Bytes) | Ask(limit: Option<int>)

  /** The reader goes on from the page's next cursor, or else from the last envelope it got. */
  function NextCursor(cursor: Option<int>, page: Page): Option<int> {
    if page.nextAfter.Some? then page.nextAfter
    else if page.envelopes == [] then cursor
    else Some(page.envelopes[|page.envelopes| - 1].id)
  }

  /** Refused envelopes and refused page sizes change nothing. */
  function Next(s: State, recipient: Digest, act: Act): State {
    match act
    case Deposit(envelope) =>
      if Deposited(s.rows, envelope).Ok? then s.(rows := Deposited(s.rows, envelope).value.0) else s
    case Ask(limit) =>
      match PageAfter(s.rows, recipient, s.reader.cursor, limit)
      case Err(_) => s
      case Ok(page) =>
        s.(reader := Reader(NextCursor(s.reader.cursor, page), s.reader.got + page.envelopes, page.nextAfter.None?))
  }

  function Run(s: State, recipient: Digest, acts: seq<Act>): State
    decreases acts
  {
    if acts == [] then s else Run(Next(s, recipient, acts[0]), recipient, acts[1..])
  }

  /** An empty mailbox, and a reader that will start above `from`. */
  function Empty(from: Option<int>): State {
    State([], Reader(from, [], false))
  }

  /** What the reader has and what it will be given together are all there is above its start. */
  ghost predicate OneRead(rows: seq<Envelope>, recipient: Digest, low: int, cursor: int, got: seq<Envelope>) {
    && Above(rows, recipient, low) == got + Above(rows, recipient, cursor)
    && (cursor == low || low < cursor < NextId(rows))
  }

  ghost predicate InSync(s: State, recipient: Digest, from: Option<int>) {
    Sound(s.rows) && OneRead(s.rows, recipient, Start(from), Start(s.reader.cursor), s.reader.got)
  }

  lemma {:induction false} AboveOne(e: Envelope, recipient: Digest, after: int)
    ensures Above([e], recipient, after) == if e.recipient == recipient && after < e.id then [e] else []
  {
    assert [e][1..] == [];
    assert Above([e][1..], recipient, after) == [];
  }

  lemma OneReadGrows(rows: seq<Envelope>, e: Envelope, recipient: Digest, low: int, cursor: int, got: seq<Envelope>)
    requires OneRead(rows, recipient, low, cursor, got) && e.id == NextId(rows)
    ensures OneRead(rows + [e], recipient, low, cursor, got)
  {
    AbovePrefix(rows, [e], recipient, low);
    AbovePrefix(rows, [e], recipient, cursor);
    AboveOne(e, recipient, low);
    AboveOne(e, recipient, cursor);
  }

  lemma DepositInSync(s: State, recipient: Digest, from: Option<int>, envelope: Bytes)
    requires InSync(s, recipient, from)
    ensures InSync(Next(s, recipient, Deposit(envelope)), recipient, from)
  {
    if Deposited(s.rows, envelope).Ok? {
      DepositKeepsSound(s.rows, envelope);
      var after := Deposited(s.rows, envelope).value.0;
      if after != s.rows {
        OneReadGrows(s.rows, after[|s.rows|], recipient, Start(from), Start(s.reader.cursor), s.reader.got);
      }
    }
  }

  lemma Regroup<T>(got: seq<T>, es: seq<T>, m: nat)
    requires m <= |es|
    ensures got + es == (got + es[..m]) + es[m..]
  {
  }

  /** Going on from the m-th row found. */
  lemma ResumeAt(rows: seq<Envelope>, recipient: Digest, after: int, m: nat)
    requires Ordered(rows) && 0 < m <= |Above(rows, recipient, after)|
    ensures var cursor := Above(rows, recipient, after)[m - 1].id;
      after < cursor < NextId(rows) && Above(rows, recipient, cursor) == Above(rows, recipient, after)[m..]
  {
    var es := Above(rows, recipient, after);
    AboveFrom(rows, recipient, after, m);
    AboveAre(rows, recipient, after);
    assert es[m - 1] in es;
    BelowNext(rows, es[m - 1]);
  }

  lemma FrontOf<T>(es: seq<T>, n: nat, front: seq<T>)
    requires front == if |es| > n then es[..n] else es
    ensures |front| <= |es| && front == es[..|front|]
  {
  }

  /** A page is the front of what lies above the cursor, the rest lies above the next cursor,
  and a page without a next cursor is all of it. */
  lemma PageIsFront(rows: seq<Envelope>, recipient: Digest, cursor: Option<int>, limit: Option<int>) returns (m: nat)
    requires Ordered(rows) && LegalLimit(limit)
    ensures var es, page := Above(rows, recipient, Start(cursor)), PageAfter(rows, recipient, cursor, limit).value;
      && m <= |es| && page.envelopes == es[..m]
      && Above(rows, recipient, Start(NextCursor(cursor, page))) == es[m..]
      && (page.nextAfter.None? ==> m == |es|)
      && (Start(NextCursor(cursor, page)) == Start(cursor)
          || Start(cursor) < Start(NextCursor(cursor, page)) < NextId(rows))
  {
    var es, page := Above(rows, recipient, Start(cursor)), PageAfter(rows, recipient, cursor, limit).value;
    m := |page.envelopes|;
    FrontOf(es, PageSize(limit), page.envelopes);
    if m > 0 {
      assert Start(NextCursor(cursor, page)) == es[m - 1].id;
      ResumeAt(rows, recipient, Start(cursor), m);
    }
  }

  /** The rows a reader is after. */
  predicate Wanted(e: Envelope, recipient: Digest, cursor: Option<int>) {
    e.recipient == recipient && e.id > if cursor.None? then 0 else cursor.value
  }

  /** What a page is, said of the rows: its envelopes are wanted rows, in id order, no more than were asked for; any
  wanted row it lacks is above its next cursor, and there is one if and only if there is a next cursor, which is the
  id of the last envelope of a full page. */
  ghost predicate PageOf(rows: seq<Envelope>, recipient: Digest, cursor: Option<int>, size: nat, page: Page) {
    && |page.envelopes| <= size && InIdOrder(page.envelopes)
    && (forall e :: e in page.envelopes ==> e in rows && Wanted(e, recipient, cursor))
    && (page.nextAfter.Some? ==>
          |page.envelopes| == size > 0 && page.nextAfter.value == page.envelopes[size - 1].id)
    && (page.nextAfter.Some? <==> exists e :: e in rows && Wanted(e, recipient, cursor) && e !in page.envelopes)
    && (forall e :: e in rows && Wanted(e, recipient, cursor) && e !in page.envelopes ==> e.id > page.nextAfter.value)
  }

  ghost predicate AllWanted(rows: seq<Envelope>, recipient: Digest, cursor: Option<int>, es: seq<Envelope>) {
    InIdOrder(es) && forall e :: e in es <==> e in rows && Wanted(e, recipient, cursor)
  }

  lemma FullPage(rows: seq<Envelope>, recipient: Digest, cursor: Option<int>, es: seq<Envelope>, n: nat)
    requires AllWanted(rows, recipient, cursor, es) && 0 < n < |es|
    ensures PageOf(rows, recipient, cursor, n, Page(es[..n], Some(es[n - 1].id)))
  {
    forall i | 0 <= i < n ensures es[i] in es[..n] {
      assert es[..n][i] == es[i];
    }
    forall e | e in rows && Wanted(e, recipient, cursor) && e !in es[..n] ensures e.id > es[n - 1].id {
      assert e in es;
      var i :| 0 <= i < |es| && es[i] == e;
    }
    assert es[n] in es && es[n] !in es[..n];
  }

  lemma LastPage(rows: seq<Envelope>, recipient: Digest, cursor: Option<int>, es: seq<Envelope>, n: nat)
    requires AllWanted(rows, recipient, cursor, es) && |es| <= n
    ensures PageOf(rows, recipient, cursor, n, Page(es, None))
  {
  }

  lemma AboveIsWanted(rows: seq<Envelope>, recipient: Digest, cursor: Option<int>)
    requires Ordered(rows)
    ensures AllWanted(rows, recipient, cursor, Above(rows, recipient, Start(cursor)))
  {
    AboveAre(rows, recipient, Start(cursor));
    AboveComplete(rows, recipient, Start(cursor));
    AboveInOrder(rows, recipient, Start(cursor));
  }

  /** A request is answered exactly if it asks for at most the largest page, 1 to 500, or for the usual 100. */
  lemma PageExact(rows: seq<Envelope>, recipient: Digest, cursor: Option<int>, limit: Option<int>)
    requires Ordered(rows)
    ensures match PageAfter(rows, recipient, cursor, limit)
      case Err(e) => limit.Some? && !(1 <= limit.value <= 500) && e == InvalidInboxPage
      case Ok(page) =>
        var size := if limit.None? then 100 else limit.value;
        1 <= size <= 500 && PageOf(rows, recipient, cursor, size, page)
  {
    if LegalLimit(limit) {
      var es, n := Above(rows, recipient, Start(cursor)), PageSize(limit);
      AboveIsWanted(rows, recipient, cursor);
      if |es| > n {
        FullPage(rows, recipient, cursor, es, n);
      } else {
        LastPage(rows, recipient, cursor, es, n);
      }
    }
  }

  lemma OneReadMoves(rows: seq<Envelope>, recipient: Digest, low: int, got: seq<Envelope>, cursor: Option<int>,
                     limit: Option<int>)
    requires Ordered(rows) && LegalLimit(limit) && OneRead(rows, recipient, low, Start(cursor), got)
    ensures var page := PageAfter(rows, recipient, cursor, limit).value;
      OneRead(rows, recipient, low, Start(NextCursor(cursor, page)), got + page.envelopes)
  {
    var m := PageIsFront(rows, recipient, cursor, limit);
    Regroup(got, Above(rows, recipient, Start(cursor)), m);
  }

  lemma AskInSync(s: State, recipient: Digest, from: Option<int>, limit: Option<int>)
    requires InSync(s, recipient, from)
    ensures InSync(Next(s, recipient, Ask(limit)), recipient, from)
  {
    if LegalLimit(limit) {
      OneReadMoves(s.rows, recipient, Start(from), s.reader.got, s.reader.cursor, limit);
    }
  }

  lemma BelowNext(rows: seq<Envelope>, e: Envelope)
    requires Ordered(rows) && e in rows
    ensures e.id < NextId(rows)
  {
  }

  lemma NextInSync(s: State, recipient: Digest, from: Option<int>, act: Act)
    requires InSync(s, recipient, from)
    ensures InSync(Next(s, recipient, act), recipient, from)
  {
    match act {
      case Deposit(envelope) => DepositInSync(s, recipient, from, envelope);
      case Ask(limit) => AskInSync(s, recipient, from, limit);
    }
  }

  lemma {:induction false} RunInSync(s: State, recipient: Digest, from: Option<int>, acts: seq<Act>)
    requires InSync(s, recipient, from)
    ensures InSync(Run(s, recipient, acts), recipient, from)
    decreases acts
  {
    if acts != [] {
      NextInSync(s, recipient, from, acts[0]);
      RunInSync(Next(s, recipient, acts[0]), recipient, from, acts[1..]);
    }
  }

  /** In every run from an empty mailbox, whatever the page sizes and whatever arrives in
  between, the pages so far and one full read above the cursor are one full read above the
  start: nothing is lost, repeated or out of order. */
  lemma {:induction false} PagesAreOneRead(recipient: Digest, from: Option<int>, acts: seq<Act>)
    ensures var s := Run(Empty(from), recipient, acts);
      && Sound(s.rows)
      && Above(s.rows, recipient, Start(from)) == s.reader.got + Above(s.rows, recipient, Start(s.reader.cursor))
  {
    RunInSync(Empty(from), recipient, from, acts);
  }

  /** The state after a run and one more answered request. */
  function AfterAsk(recipient: Digest, acts: seq<Act>, limit: Option<int>): State {
    Next(Run(Empty(None), recipient, acts), recipient, Ask(limit))
  }

  lemma {:induction false} EndIsFullRead(recipient: Digest, acts: seq<Act>, limit: Option<int>)
    requires LegalLimit(limit) && AfterAsk(recipient, acts, limit).reader.atEnd
    ensures var s := AfterAsk(recipient, acts, limit); Sound(s.rows) && s.reader.got == Above(s.rows, recipient, 0)
  {
    var before := Run(Empty(None), recipient, acts);
    RunInSync(Empty(None), recipient, None, acts);
    AskInSync(before, recipient, None, limit);
    AtEndNothingLeft(before, recipient, limit);
  }

  /** At a page without a next cursor, a reader that started at the beginning has every
  envelope of its recipient then stored, exactly once and in id order. */
  lemma {:induction false} PagesAreComplete(recipient: Digest, acts: seq<Act>, limit: Option<int>)
    requires LegalLimit(limit) && AfterAsk(recipient, acts, limit).reader.atEnd
    ensures var s := AfterAsk(recipient, acts, limit);
      && InIdOrder(s.reader.got)
      && forall e :: e in s.reader.got <==> e in s.rows && e.recipient == recipient
  {
    var rows := AfterAsk(recipient, acts, limit).rows;
    EndIsFullRead(recipient, acts, limit);
    AboveAre(rows, recipient, 0);
    AboveComplete(rows, recipient, 0);
    AllPositive(rows);
    AboveInOrder(rows, recipient, 0);
  }

  lemma AllPositive(rows: seq<Envelope>)
    requires Ordered(rows)
    ensures forall e :: e in rows ==> 0 < e.id
  {
  }

  lemma AtEndNothingLeft(s: State, recipient: Digest, limit: Option<int>)
    requires Sound(s.rows) && LegalLimit(limit) && Next(s, recipient, Ask(limit)).reader.atEnd
    ensures Above(s.rows, recipient, Start(Next(s, recipient, Ask(limit)).reader.cursor)) == []
  {
    var m := PageIsFront(s.rows, recipient, s.reader.cursor, limit);
  }

  ghost predicate AllAsk(acts: seq<Act>) {
    forall i :: 0 <= i < |acts| ==> acts[i].Ask? && LegalLimit(acts[i].limit)
  }

  /** While nothing arrives, a reader that asks more often than it has envelopes to come reaches the end. */
  lemma {:induction false} AsksReachEnd(s: State, recipient: Digest, acts: seq<Act>)
    requires Ordered(s.rows) && AllAsk(acts) && |acts| > |Above(s.rows, recipient, Start(s.reader.cursor))|
    ensures Run(s, recipient, acts).reader.atEnd && Run(s, recipient, acts).rows == s.rows
    decreases acts
  {
    var next := Next(s, recipient, acts[0]);
    var m := PageIsFront(s.rows, recipient, s.reader.cursor, acts[0].limit);
    if |acts| == 1 {
      assert Run(s, recipient, acts) == Run(next, recipient, []);
    } else {
      if Above(s.rows, recipient, Start(s.reader.cursor)) != [] {
        assert m > 0;
      }
      assert AllAsk(acts[1..]);
      AsksReachEnd(next, recipient, acts[1..]);
    }
  }

  // ----- what is stored

  ghost predicate Stored(rows: seq<Envelope>, bytes: Bytes) {
    exists id :: Holds(rows, id, bytes)
  }

  lemma ActKeepsSound(s: State, recipient: Digest, act: Act)
    requires Sound(s.rows)
    ensures Sound(Next(s, recipient, act).rows)
  {
    if act.Deposit? && Deposited(s.rows, act.envelope).Ok? {
      DepositKeepsSound(s.rows, act.envelope);
    }
  }

  lemma ActStores(s: State, recipient: Digest, act: Act, envelope: Bytes)
    requires Sound(s.rows)
    ensures Stored(Next(s, recipient, act).rows, envelope)
       <==> Stored(s.rows, envelope) || (act == Deposit(envelope) && Route(envelope).Ok?)
    ensures forall id :: Holds(s.rows, id, envelope) ==> Holds(Next(s, recipient, act).rows, id, envelope)
  {
    if act.Deposit? {
      DepositedMeans(s.rows, act.envelope);
    }
  }

  /** A run stores exactly the well-formed envelopes deposited in it. */
  lemma {:induction false} DepositsArrive(s: State, recipient: Digest, acts: seq<Act>, envelope: Bytes)
    requires Sound(s.rows)
    ensures Sound(Run(s, recipient, acts).rows)
    ensures Stored(Run(s, recipient, acts).rows, envelope)
       <==> Stored(s.rows, envelope) || (Deposit(envelope) in acts && Route(envelope).Ok?)
    decreases acts
  {
    if acts != [] {
      ActKeepsSound(s, recipient, acts[0]);
      ActStores(s, recipient, acts[0], envelope);
      DepositsArrive(Next(s, recipient, acts[0]), recipient, acts[1..], envelope);
      assert acts == [acts[0]] + acts[1..];
    }
  }

  /** End to end: at a page without a next cursor, the reader has an envelope if and only if it
  was deposited in the run and its header names the reader's key. */
  lemma {:induction false} DepositsAreRead(recipient: Digest, acts: seq<Act>, limit: Option<int>, envelope: Bytes)
    requires LegalLimit(limit) && AfterAsk(recipient, acts, limit).reader.atEnd
    ensures (exists e :: e in AfterAsk(recipient, acts, limit).reader.got && e.bytes == envelope)
       <==> Deposit(envelope) in acts && Route(envelope) == Ok(recipient)
  {
    var s := AfterAsk(recipient, acts, limit);
    PagesAreComplete(recipient, acts, limit);
    DepositsArrive(Empty(None), recipient, acts, envelope);
    if Deposit(envelope) in acts && Route(envelope) == Ok(recipient) {
      assert Stored(s.rows, envelope);
      var id :| Holds(s.rows, id, envelope);
      var e :| e in s.rows && e.id == id && e.bytes == envelope;
      RoutedAt(s.rows, e);
      assert e in s.reader.got;
    }
    if exists e :: e in s.reader.got && e.bytes == envelope {
      var e :| e in s.reader.got && e.bytes == envelope;
      RoutedAt(s.rows, e);
      assert Holds(s.rows, e.id, envelope);
    }
  }

  lemma RoutedAt(rows: seq<Envelope>, e: Envelope)
    requires Sound(rows) && e in rows
    ensures Route(e.bytes) == Ok(e.recipient) && e.contentHash == Sha256(e.bytes)
  {
    var i :| 0 <= i < |rows| && rows[i] == e;
  }

  lemma {:induction false} RowsStay(s: State, recipient: Digest, acts: seq<Act>, id: int, envelope: Bytes)
    requires Sound(s.rows) && Holds(s.rows, id, envelope)
    ensures Sound(Run(s, recipient, acts).rows) && Holds(Run(s, recipient, acts).rows, id, envelope)
    decreases acts
  {
    if acts != [] {
      ActKeepsSound(s, recipient, acts[0]);
      ActStores(s, recipient, acts[0], envelope);
      RowsStay(Next(s, recipient, acts[0]), recipient, acts[1..], id, envelope);
    }
  }

  /** Storing an envelope again, however much later, changes nothing and names the same row. */
  lemma {:induction false} StoreIsIdempotent(s: State, recipient: Digest, envelope: Bytes, acts: seq<Act>)
    requires Sound(s.rows) && Deposited(s.rows, envelope).Ok?
    ensures var (rows, receipt) := Deposited(s.rows, envelope).value;
      var later := Run(s.(rows := rows), recipient, acts).rows;
      Deposited(later, envelope) == Ok((later, receipt.(duplicate := true)))
  {
    var (rows, receipt) := Deposited(s.rows, envelope).value;
    DepositedMeans(s.rows, envelope);
    DepositKeepsSound(s.rows, envelope);
    RowsStay(s.(rows := rows), recipient, acts, receipt.id, envelope);
    var later := Run(s.(rows := rows), recipient, acts).rows;
    HeldIsFound(later, receipt.id, envelope);
  }

  lemma HeldIsFound(rows: seq<Envelope>, id: int, envelope: Bytes)
    requires Sound(rows) && Holds(rows, id, envelope)
    ensures Route(envelope).Ok?
    ensures Deposited(rows, envelope) == Ok((rows, Receipt(id, Route(envelope).value, true)))
  {
    var e :| e in rows && e.id == id && e.bytes == envelope;
    RoutedAt(rows, e);
    FoundIs(rows, e);
  }

  lemma FoundIs(rows: seq<Envelope>, e: Envelope)
    requires Deduplicated(rows) && e in rows
    ensures Find(rows, e.recipient, e.contentHash).Some?
    ensures rows[Find(rows, e.recipient, e.contentHash).value] == e
  {
    var i :| 0 <= i < |rows| && rows[i] == e;
  }
}
