/** Over runs of applies a personal store stays well formed and no generation falls
(`apply_public_tree` in `src/key_tree.rs`). */
module ApplyRuns {
  import opened Errors
  import opened Lists
  import opened PublicTrees
  import opened KeyStore
  import opened ApplyTree
  import opened ApplyRows
  import opened ApplyExact

  ghost predicate TreeOk(keys: seq<HardwareKey>, t: LocalTree) {
    && Ordered(t.rows) && NamesDiffer(t.rows)
    && forall i :: 0 <= i < |t.rows| ==> RowAllowed(keys, t.rows[i])
  }

  /** Every tree of a store has well-formed rows. */
  ghost predicate StoreOk(db: Personal) {
    forall k :: 0 <= k < |db.trees| ==> TreeOk(db.keys, db.trees[k])
  }

  lemma {:induction false} RowsBelow(rows: seq<Row>, i: nat)
    requires i < |rows|
    ensures rows[i].id <= LargestId(rows)
  {
    if i < |rows| - 1 {
      RowsBelow(rows[..|rows| - 1], i);
    }
  }

  lemma {:induction false} TreesBelow(trees: seq<LocalTree>, k: nat, i: nat)
    requires k < |trees| && i < |trees[k].rows|
    ensures trees[k].rows[i].id < NextRowId(trees)
  {
    if k == |trees| - 1 {
      RowsBelow(trees[k].rows, i);
    } else {
      TreesBelow(trees[..|trees| - 1], k, i);
    }
  }

  lemma {:induction false} LargestIdIs(rows: seq<Row>)
    ensures LargestId(rows) == 0 || exists i :: 0 <= i < |rows| && rows[i].id == LargestId(rows)
  {
    if rows != [] {
      LargestIdIs(rows[..|rows| - 1]);
    }
  }

  /** The next row id is one, or one more than some row's, and above every row's. */
  lemma {:induction false} NextRowIdIs(trees: seq<LocalTree>)
    ensures forall k, i :: 0 <= k < |trees| && 0 <= i < |trees[k].rows| ==> trees[k].rows[i].id < NextRowId(trees)
    ensures NextRowId(trees) >= 1
    ensures NextRowId(trees) == 1
      || exists k, i :: 0 <= k < |trees| && 0 <= i < |trees[k].rows| && trees[k].rows[i].id == NextRowId(trees) - 1
  {
    forall k, i | 0 <= k < |trees| && 0 <= i < |trees[k].rows| ensures trees[k].rows[i].id < NextRowId(trees) {
      TreesBelow(trees, k, i);
    }
    if trees != [] {
      var front, last := trees[..|trees| - 1], trees[|trees| - 1].rows;
      NextRowIdIs(front);
      LargestIdIs(last);
      if LargestOf(front) < LargestId(last) {
        var i :| 0 <= i < |last| && last[i].id == LargestId(last);
        assert trees[|trees| - 1].rows[i].id == NextRowId(trees) - 1;
      } else if NextRowId(front) != 1 {
        var k, i :| 0 <= k < |front| && 0 <= i < |front[k].rows| && front[k].rows[i].id == NextRowId(front) - 1;
        assert trees[k].rows[i].id == NextRowId(trees) - 1;
      }
    }
  }

  lemma StoredRowsOk(db: Personal, k: nat)
    requires StoreOk(db) && k < |db.trees|
    ensures RowsOk(Work(db.trees[k].rows, db.keys, NextRowId(db.trees)))
  {
    forall i | 0 <= i < |db.trees[k].rows| ensures db.trees[k].rows[i].id < NextRowId(db.trees) {
      TreesBelow(db.trees, k, i);
    }
  }

  datatype Pull = Pull(keyId: Option<nat>, snapshot: PublicTree)

  function AfterPull(enc: Encoding, db: Personal, p: Pull): Personal {
    match Applied(enc, db, p.keyId, p.snapshot)
    case Ok(done) => done.0
    case Err(_) => db
  }

  function AfterPulls(enc: Encoding, db: Personal, pulls: seq<Pull>): Personal
    decreases pulls
  {
    if pulls == [] then db else AfterPulls(enc, AfterPull(enc, db, pulls[0]), pulls[1..])
  }

  lemma TreeStaysOk(keys: seq<HardwareKey>, more: seq<HardwareKey>, t: LocalTree)
    requires TreeOk(keys, t) && keys <= more
    ensures TreeOk(more, t)
  {
  }

  lemma {:induction false} AllowAllRows(t: LocalTree, edges: seq<PublicEdge>)
    requires AllowAll(t, edges).Ok?
    ensures AllowAll(t, edges).value.rows == t.rows && AllowAll(t, edges).value.name == t.name
    decreases edges
  {
    if edges != [] {
      AllowAllRows(Allow(t, edges[0]).value, edges[1..]);
    }
  }

  lemma {:induction false} LinkAllRows(t: LocalTree, edges: seq<PublicEdge>)
    requires LinkAll(t, edges).Ok?
    ensures LinkAll(t, edges).value.rows == t.rows && LinkAll(t, edges).value.name == t.name
    decreases edges
  {
    if edges != [] {
      LinkAllRows(Link(t, edges[0]).value, edges[1..]);
    }
  }

  lemma ApplyToKeepsOk(enc: Encoding, t: LocalTree, keys: seq<HardwareKey>, nextId: int, s: PublicTree)
    requires RowsOk(Work(t.rows, keys, nextId)) && ApplyTo(enc, t, keys, nextId, s).Ok?
    ensures var r := ApplyTo(enc, t, keys, nextId, s).value;
      && keys <= r.1.keys && nextId <= r.1.nextId
      && RowsOk(Work(r.0.rows, r.1.keys, r.1.nextId))
      && r.0.name == t.name && r.0.generation >= t.generation
  {
    var r := ApplyTo(enc, t, keys, nextId, s).value;
    DistinctUnlessRepeated(s.nodes);
    ApplyNodesFacts(enc, Work(t.rows, keys, nextId), s.nodes);
    var placed := t.(rows := r.1.rows);
    var d := DropEdges(DropRows(placed, Names(s.nodes)));
    var gone := Doomed(r.1.rows, GoneIds(r.1.rows, Names(s.nodes)));
    KeepRows(r.1.rows, Stays(gone));
    KeepMembers(r.1.rows, Stays(gone));
    AllowAllRows(d, s.whitelist);
    LinkAllRows(AllowAll(d, s.whitelist).value, s.links);
    forall i | 0 <= i < |r.0.rows| ensures r.0.rows[i].id < r.1.nextId && RowAllowed(r.1.keys, r.0.rows[i]) {
      assert r.0.rows[i] in r.1.rows;
    }
  }

  /** The same tree, no older. */
  predicate Later(before: LocalTree, after: LocalTree) {
    after.name == before.name && after.generation >= before.generation
  }

  /** The chosen tree, there already or created, has well-formed rows. */
  lemma ChosenOk(db: Personal, keyId: Option<nat>, name: string)
    requires StoreOk(db) && Choose(db.trees, keyId, name).Ok?
    ensures var c := Choose(db.trees, keyId, name).value;
      && RowsOk(Work(c.1[c.0].rows, db.keys, NextRowId(db.trees)))
      && |db.trees| <= |c.1| <= |db.trees| + 1 && (|c.1| > |db.trees| ==> c.0 == |db.trees|)
      && forall k :: 0 <= k < |db.trees| ==> c.1[k] == db.trees[k]
  {
    var c := Choose(db.trees, keyId, name).value;
    if c.0 < |db.trees| {
      StoredRowsOk(db, c.0);
    }
  }

  /** A pull keeps the store well formed, and every tree's label; no tree's generation falls. */
  lemma PullKeeps(enc: Encoding, db: Personal, p: Pull)
    requires StoreOk(db)
    ensures StoreOk(AfterPull(enc, db, p)) && |AfterPull(enc, db, p).trees| >= |db.trees|
    ensures forall k :: 0 <= k < |db.trees| ==> Later(db.trees[k], AfterPull(enc, db, p).trees[k])
  {
    if Applied(enc, db, p.keyId, p.snapshot).Ok? {
      var c := Choose(db.trees, p.keyId, p.snapshot.name).value;
      ChosenOk(db, p.keyId, p.snapshot.name);
      ApplyToKeepsOk(enc, c.1[c.0], db.keys, NextRowId(db.trees), p.snapshot);
      var after := AfterPull(enc, db, p);
      forall k | 0 <= k < |after.trees| ensures TreeOk(after.keys, after.trees[k]) {
        if k != c.0 {
          TreeStaysOk(db.keys, after.keys, db.trees[k]);
        }
      }
    }
  }

  /** Over any run of pulls, applied or refused, no stored generation falls. */
  lemma {:induction false} GenerationsNeverFall(enc: Encoding, db: Personal, pulls: seq<Pull>, k: nat)
    requires StoreOk(db) && k < |db.trees|
    ensures StoreOk(AfterPulls(enc, db, pulls)) && k < |AfterPulls(enc, db, pulls).trees|
    ensures Later(db.trees[k], AfterPulls(enc, db, pulls).trees[k])
    decreases pulls
  {
    if pulls != [] {
      PullKeeps(enc, db, pulls[0]);
      GenerationsNeverFall(enc, AfterPull(enc, db, pulls[0]), pulls[1..], k);
    }
  }
}
