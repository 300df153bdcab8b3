/** What applying nodes does to the rows: each node of the snapshot gets the row it describes,
no other row changes, ids stay, and a sealed share is lost only with its hardware key. */
module ApplyRows {
  import opened Errors
  import opened Lists
  import opened PublicTrees
  import opened KeyStore
  import opened ApplyTree
  import opened ApplySchedule

  // ----- rows by label

  function RowNamed(rows: seq<Row>, name: string): Option<Row> {
    IndexOfNameFinds(rows, name);
    match IndexOfName(rows, name)
    case None => None
    case Some(i) => Some(rows[i])
  }

  lemma RowNamedIs(rows: seq<Row>, i: nat)
    requires NamesDiffer(rows) && i < |rows|
    ensures RowNamed(rows, rows[i].name) == Some(rows[i])
  {
    IndexOfNameFinds(rows, rows[i].name);
  }

  lemma RowNamedAt(rows: seq<Row>, name: string) returns (i: nat)
    requires RowNamed(rows, name).Some?
    ensures i < |rows| && rows[i].name == name && RowNamed(rows, name) == Some(rows[i])
  {
    IndexOfNameFinds(rows, name);
    i := IndexOfName(rows, name).value;
  }

  lemma RowNamedNone(rows: seq<Row>, name: string)
    ensures RowNamed(rows, name).None? <==> name !in RowNames(rows)
  {
    IndexOfNameFinds(rows, name);
    if RowNamed(rows, name).Some? {
      var i := IndexOfName(rows, name).value;
      assert rows[i].name in RowNames(rows);
    }
  }

  /** The rows of one tree as its store keeps them. */
  ghost predicate RowsOk(w: Work) {
    && Ordered(w.rows) && NamesDiffer(w.rows)
    && (forall i :: 0 <= i < |w.rows| ==> w.rows[i].id < w.nextId && RowAllowed(w.keys, w.rows[i]))
  }

  // ----- hardware keys

  lemma {:induction false} FindKeyFinds(keys: seq<HardwareKey>, public: PublicKey)
    ensures match FindKey(keys, public)
      case Some(k) => k < |keys| && keys[k].public == public
      case None => forall k :: 0 <= k < |keys| ==> keys[k].public != public
  {
    if keys != [] && keys[|keys| - 1].public != public {
      FindKeyFinds(keys[..|keys| - 1], public);
    }
  }

  lemma {:induction false} FindFingerprintFinds(enc: Encoding, keys: seq<HardwareKey>, fp: string)
    ensures match FindFingerprint(enc, keys, fp)
      case Some(k) => k < |keys| && enc.fingerprint(keys[k].public) == fp
      case None => forall k :: 0 <= k < |keys| ==> enc.fingerprint(keys[k].public) != fp
  {
    if keys != [] && enc.fingerprint(keys[|keys| - 1].public) != fp {
      FindFingerprintFinds(enc, keys[..|keys| - 1], fp);
    }
  }

  /** The row's hardware key is the one the node names. */
  predicate KeyMatches(enc: Encoding, keys: seq<HardwareKey>, n: PublicNode, key: Option<int>) {
    if n.publicKey.None? && n.fingerprint.None? then key.None?
    else
      && key.Some? && 0 <= key.value < |keys|
      && (n.publicKey.Some? ==> enc.unhex(n.publicKey.value) == Some(keys[key.value].public))
      && (n.fingerprint.Some? ==> enc.fingerprint(keys[key.value].public) == n.fingerprint.value)
  }

  function IntKey(key: Option<nat>): Option<int> {
    match key case None => None case Some(k) => Some(k)
  }

  lemma ResolveKeyFacts(enc: Encoding, keys: seq<HardwareKey>, n: PublicNode)
    requires ResolveKey(enc, keys, n).Ok?
    ensures var r := ResolveKey(enc, keys, n).value; keys <= r.0 && KeyMatches(enc, r.0, n, IntKey(r.1))
  {
    if n.publicKey.Some? {
      FindKeyFinds(keys, enc.unhex(n.publicKey.value).value);
    } else if n.fingerprint.Some? {
      FindFingerprintFinds(enc, keys, n.fingerprint.value);
    }
  }

  lemma RowsStayAllowed(keys: seq<HardwareKey>, more: seq<HardwareKey>, row: Row)
    requires keys <= more && RowAllowed(keys, row)
    ensures RowAllowed(more, row)
  {
  }

  // ----- one node

  predicate ParentMatches(rows: seq<Row>, n: PublicNode, row: Row) {
    match n.parent
    case None => row.parent.None?
    case Some(p) => RowNamed(rows, p).Some? && row.parent == Some(RowNamed(rows, p).value.id)
  }

  /** The node has a row, and the row says what the node says. */
  predicate Placed(enc: Encoding, w: Work, n: PublicNode) {
    match RowNamed(w.rows, n.name)
    case None => false
    case Some(row) =>
      && row.threshold == n.threshold && row.active == n.active
      && KeyMatches(enc, w.keys, n, row.hardwareKey) && ParentMatches(w.rows, n, row)
  }

  /** Ids stay, and a sealed share stays exactly with its hardware key. */
  predicate Kept(before: Row, after: Row) {
    after.id == before.id && after.wrapped == (if after.hardwareKey == before.hardwareKey then before.wrapped else None)
  }

  /** Rows by label after a change to the row labelled `name`: no other row changes. */
  ghost predicate OnlyRow(before: seq<Row>, after: seq<Row>, name: string) {
    && (forall x :: x != name ==> RowNamed(after, x) == RowNamed(before, x))
    && RowNamed(after, name).Some?
    && (RowNamed(before, name).Some? ==> Kept(RowNamed(before, name).value, RowNamed(after, name).value))
  }

  /** A row that was not there before has a new id and holds no share. */
  ghost predicate NewRowsBlank(before: Work, after: Work) {
    forall x :: RowNamed(before.rows, x).None? && RowNamed(after.rows, x).Some? ==>
      RowNamed(after.rows, x).value.id >= before.nextId && RowNamed(after.rows, x).value.wrapped.None?
  }

  lemma UpdateRow(rows: seq<Row>, i: nat, row: Row)
    requires NamesDiffer(rows) && i < |rows| && row.name == rows[i].name
    ensures NamesDiffer(rows[i := row]) && RowNamed(rows[i := row], row.name) == Some(row)
    ensures forall x :: x != row.name ==> RowNamed(rows[i := row], x) == RowNamed(rows, x)
  {
    var after := rows[i := row];
    assert forall j :: 0 <= j < |rows| ==> after[j].name == rows[j].name;
    RowNamedIs(after, i);
    forall x | x != row.name ensures RowNamed(after, x) == RowNamed(rows, x) {
      IndexOfNameFinds(after, x);
      IndexOfNameFinds(rows, x);
      if RowNamed(rows, x).Some? {
        var j := RowNamedAt(rows, x);
        assert after[j] == rows[j];
        RowNamedIs(after, j);
      }
    }
  }

  lemma AppendRow(rows: seq<Row>, row: Row)
    requires NamesDiffer(rows) && RowNamed(rows, row.name).None?
    ensures NamesDiffer(rows + [row]) && RowNamed(rows + [row], row.name) == Some(row)
    ensures forall x :: x != row.name ==> RowNamed(rows + [row], x) == RowNamed(rows, x)
  {
    IndexOfNameFinds(rows, row.name);
    var after := rows + [row];
    assert after[..|after| - 1] == rows;
    forall x | x != row.name ensures RowNamed(after, x) == RowNamed(rows, x) {
      assert IndexOfName(after, x) == IndexOfName(rows, x);
      IndexOfNameFinds(rows, x);
    }
  }

  lemma PutRowFacts(w: Work, keys: seq<HardwareKey>, parent: Option<int>, n: PublicNode, key: Option<nat>)
    requires RowsOk(w) && w.keys <= keys && PutRow(w, keys, parent, n, key).Ok?
    requires n.threshold.None? ==> key.Some?
    ensures var after := PutRow(w, keys, parent, n, key).value;
      && RowsOk(after) && after.keys == keys && w.nextId <= after.nextId && OnlyRow(w.rows, after.rows, n.name)
      && NewRowsBlank(w, after)
      && RowNamed(after.rows, n.name).value.threshold == n.threshold
      && RowNamed(after.rows, n.name).value.active == n.active
      && RowNamed(after.rows, n.name).value.parent == parent
      && RowNamed(after.rows, n.name).value.hardwareKey == IntKey(key)
  {
    IndexOfNameFinds(w.rows, n.name);
    var after := PutRow(w, keys, parent, n, key).value;
    match IndexOfName(w.rows, n.name) {
      case Some(i) =>
        UpdateRow(w.rows, i, UpdatedRow(w.rows[i], parent, n, key));
        RowNamedIs(w.rows, i);
        assert w.rows[i].name == n.name;
      case None =>
        AppendRow(w.rows, NewRow(w.nextId, parent, n, key));
    }
    forall i | 0 <= i < |after.rows| ensures after.rows[i].id < after.nextId && RowAllowed(keys, after.rows[i]) {
      if i < |w.rows| {
        RowsStayAllowed(w.keys, keys, w.rows[i]);
      }
    }
  }

  lemma ParentIdFacts(rows: seq<Row>, parent: Option<string>)
    requires ParentId(rows, parent).Ok?
    ensures match parent
      case None => ParentId(rows, parent).value.None?
      case Some(p) => RowNamed(rows, p).Some? && ParentId(rows, parent).value == Some(RowNamed(rows, p).value.id)
  {
    if parent.Some? {
      IndexOfNameFinds(rows, parent.value);
    }
  }

  lemma ApplyNodeFacts(enc: Encoding, w: Work, n: PublicNode)
    requires RowsOk(w) && ApplyNode(enc, w, n).Ok?
    ensures var after := ApplyNode(enc, w, n).value;
      && RowsOk(after) && w.keys <= after.keys && w.nextId <= after.nextId
      && OnlyRow(w.rows, after.rows, n.name) && Placed(enc, after, n) && NewRowsBlank(w, after)
  {
    ResolveKeyFacts(enc, w.keys, n);
    var found := ResolveKey(enc, w.keys, n).value;
    PutRowFacts(w, found.0, ParentId(w.rows, n.parent).value, n, found.1);
    ParentStays(w.rows, ApplyNode(enc, w, n).value.rows, n);
  }

  /** Changing the node's own row leaves its parent's id, even if it is its own parent. */
  lemma ParentStays(before: seq<Row>, after: seq<Row>, n: PublicNode)
    requires OnlyRow(before, after, n.name) && ParentId(before, n.parent).Ok?
    requires RowNamed(after, n.name).value.parent == ParentId(before, n.parent).value
    ensures ParentMatches(after, n, RowNamed(after, n.name).value)
  {
    ParentIdFacts(before, n.parent);
  }

  // ----- all nodes

  /** What a row keeps while other labels, or its own, are applied. */
  ghost predicate Grown(before: Work, after: Work, names: set<string>) {
    && before.keys <= after.keys && before.nextId <= after.nextId
    && (forall x :: x !in names ==> RowNamed(after.rows, x) == RowNamed(before.rows, x))
    && (forall x :: x in names ==> RowNamed(after.rows, x).Some?)
    && (forall x :: RowNamed(before.rows, x).Some? ==>
          RowNamed(after.rows, x).Some? && Kept(RowNamed(before.rows, x).value, RowNamed(after.rows, x).value))
    && NewRowsBlank(before, after)
  }

  lemma GrownOnce(before: Work, after: Work, name: string)
    requires before.keys <= after.keys && before.nextId <= after.nextId && OnlyRow(before.rows, after.rows, name)
    requires NewRowsBlank(before, after)
    ensures Grown(before, after, {name})
  {
  }

  lemma GrownTwice(a: Work, b: Work, c: Work, m: set<string>, n: set<string>)
    requires Grown(a, b, m) && Grown(b, c, n) && m !! n
    ensures Grown(a, c, m + n)
  {
    forall x | RowNamed(a.rows, x).Some?
      ensures RowNamed(c.rows, x).Some? && Kept(RowNamed(a.rows, x).value, RowNamed(c.rows, x).value)
    {
      assert x in m ==> x !in n;
    }
  }

  lemma PlacedStays(enc: Encoding, before: Work, after: Work, names: set<string>, n: PublicNode)
    requires Placed(enc, before, n) && Grown(before, after, names) && n.name !in names
    ensures Placed(enc, after, n)
  {
  }

  lemma {:induction false} ApplyAllFacts(enc: Encoding, w: Work, order: seq<PublicNode>)
    requires RowsOk(w) && DistinctNames(order) && ApplyAll(enc, w, order).Ok?
    ensures var after := ApplyAll(enc, w, order).value;
      RowsOk(after) && Grown(w, after, Names(order)) && forall i :: 0 <= i < |order| ==> Placed(enc, after, order[i])
    decreases order
  {
    if order != [] {
      var n, rest := order[0], order[1..];
      var mid := ApplyNode(enc, w, n).value;
      ApplyNodeFacts(enc, w, n);
      GrownOnce(w, mid, n.name);
      ApplyAllFacts(enc, mid, rest);
      NamesFirst(order);
      var after := ApplyAll(enc, w, order).value;
      assert n.name !in Names(rest);
      GrownTwice(w, mid, after, {n.name}, Names(rest));
      PlacedStays(enc, mid, after, Names(rest), n);
      assert forall i :: 0 < i < |order| ==> order[i] == rest[i - 1];
    }
  }

  /** After the pending loop every node of the snapshot is in place. */
  lemma ApplyNodesFacts(enc: Encoding, w: Work, nodes: seq<PublicNode>)
    requires RowsOk(w) && DistinctNames(nodes) && ApplyNodes(enc, w, nodes).Ok?
    ensures var after := ApplyNodes(enc, w, nodes).value;
      RowsOk(after) && Grown(w, after, Names(nodes)) && forall n :: n in nodes ==> Placed(enc, after, n)
  {
    var order := Scheduled(nodes).order;
    PassesFacts(nodes, {}, Names(nodes));
    DistinctByMultiset(order, nodes);
    ApplyAllFacts(enc, w, order);
    SameNames(order, [], nodes);
    assert Names([]) == {};
  }

  // ----- dropping the rows the snapshot does not mention

  ghost predicate Unbound(rows: seq<Row>, gone: set<int>) {
    forall i :: 0 <= i < |rows| && rows[i].parent.Some? && rows[i].parent.value in gone ==> rows[i].id in gone
  }

  lemma {:induction false} DoomedIsGone(rows: seq<Row>, gone: set<int>)
    requires Unbound(rows, gone)
    ensures Doomed(rows, gone) == gone
  {
  }

  function GoneIds(rows: seq<Row>, remaining: set<string>): set<int> {
    set i | 0 <= i < |rows| && rows[i].name !in remaining :: rows[i].id
  }

  lemma GoneExactly(rows: seq<Row>, remaining: set<string>, i: nat)
    requires Ordered(rows) && i < |rows|
    ensures rows[i].id in GoneIds(rows, remaining) <==> rows[i].name !in remaining
  {
    if rows[i].id in GoneIds(rows, remaining) {
      var j :| 0 <= j < |rows| && rows[j].name !in remaining && rows[j].id == rows[i].id;
      SameRow(rows, i, j);
    }
  }

  lemma SameRow(rows: seq<Row>, i: nat, j: nat)
    requires Ordered(rows) && i < |rows| && j < |rows| && rows[i].id == rows[j].id
    ensures i == j
  {
  }

  /** When every mentioned row hangs below mentioned rows only, the cascade takes no mentioned row. */
  ghost predicate Rooted(rows: seq<Row>, remaining: set<string>) {
    forall i :: 0 <= i < |rows| && rows[i].name in remaining && rows[i].parent.Some? ==>
      exists j :: 0 <= j < |rows| && rows[j].name in remaining && rows[j].id == rows[i].parent.value
  }

  lemma {:induction false} NothingElseDoomed(rows: seq<Row>, remaining: set<string>)
    requires Ordered(rows) && Rooted(rows, remaining)
    ensures Doomed(rows, GoneIds(rows, remaining)) == GoneIds(rows, remaining)
  {
    var gone := GoneIds(rows, remaining);
    forall i | 0 <= i < |rows| ensures rows[i].id in gone <==> rows[i].name !in remaining {
      GoneExactly(rows, remaining, i);
    }
    DoomedIsGone(rows, gone);
  }

  lemma {:induction false} KeepRows(rows: seq<Row>, p: Row -> bool)
    requires Ordered(rows) && NamesDiffer(rows)
    ensures Ordered(Keep(rows, p)) && NamesDiffer(Keep(rows, p))
  {
    if rows != [] {
      var rest := rows[1..];
      assert forall i :: 0 <= i < |rest| ==> rest[i] == rows[i + 1];
      KeepRows(rest, p);
      KeepMembers(rest, p);
      forall j | 0 <= j < |Keep(rest, p)| ensures Keep(rest, p)[j].name != rows[0].name && Keep(rest, p)[j].id > rows[0].id {
        assert Keep(rest, p)[j] in rest;
      }
    }
  }

  lemma DropRowsFacts(t: LocalTree, remaining: set<string>)
    requires Ordered(t.rows) && NamesDiffer(t.rows) && Rooted(t.rows, remaining) && remaining <= RowNames(t.rows)
    ensures var after := DropRows(t, remaining);
      && Ordered(after.rows) && NamesDiffer(after.rows) && RowNames(after.rows) == remaining
      && forall x :: x in remaining ==> RowNamed(after.rows, x) == RowNamed(t.rows, x)
  {
    NothingElseDoomed(t.rows, remaining);
    var gone := GoneIds(t.rows, remaining);
    var rows := Keep(t.rows, Stays(gone));
    KeepRows(t.rows, Stays(gone));
    KeepMembers(t.rows, Stays(gone));
    assert DropRows(t, remaining).rows == rows;
    forall x | x in remaining ensures x in RowNames(rows) && RowNamed(rows, x) == RowNamed(t.rows, x) {
      var i :| 0 <= i < |t.rows| && t.rows[i].name == x;
      GoneExactly(t.rows, remaining, i);
      RowNamedIs(t.rows, i);
      assert t.rows[i] in rows;
      var j :| 0 <= j < |rows| && rows[j] == t.rows[i];
      RowNamedIs(rows, j);
    }
    forall x | x in RowNames(rows) ensures x in remaining {
      var j :| 0 <= j < |rows| && rows[j].name == x;
      assert rows[j] in rows;
      var i :| 0 <= i < |t.rows| && t.rows[i] == rows[j];
      GoneExactly(t.rows, remaining, i);
    }
  }
}
