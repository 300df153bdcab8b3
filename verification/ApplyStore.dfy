/** Which tree of a personal store a snapshot is applied to, when that succeeds, and what it does to the whole
store (`apply_public_tree` in `src/key_tree.rs`). */
module ApplyStore {
  import opened Errors
  import opened Lists
  import opened PublicTrees
  import opened OrgTree
  import opened KeyStore
  import opened ApplyTree
  import opened ApplySchedule
  import opened ApplyRows
  import opened ApplyExact
  import opened ApplyRound
  import opened ApplyRuns

  // ----- the tree a snapshot is for

  predicate Unheld(trees: seq<LocalTree>, name: string) {
    forall j :: 0 <= j < |trees| ==> trees[j].name != name
  }

  /** The tree at k is the one a snapshot of this label is for: the one named, or the first of that label. */
  predicate Target(trees: seq<LocalTree>, keyId: Option<nat>, name: string, k: nat) {
    && k < |trees| && trees[k].name == name
    && if keyId.Some? then k == keyId.value else forall j :: 0 <= j < k ==> trees[j].name != name
  }

  lemma ChoosesTarget(trees: seq<LocalTree>, keyId: Option<nat>, name: string, k: nat)
    requires Target(trees, keyId, name, k)
    ensures Choose(trees, keyId, name) == Ok((k, trees))
  {
    FindTreeFinds(trees, name);
  }

  lemma ChoosesFresh(trees: seq<LocalTree>, name: string)
    requires Unheld(trees, name)
    ensures Choose(trees, None, name) == Ok((|trees|, trees + [FreshTree(name)]))
  {
    FindTreeFinds(trees, name);
  }

  lemma ChoosesNone(trees: seq<LocalTree>, keyId: Option<nat>, name: string)
    requires forall k: nat :: !Target(trees, keyId, name, k)
    ensures keyId.None? ==> Unheld(trees, name)
    ensures keyId.Some? ==> Choose(trees, keyId, name).Err?
  {
    FindsTarget(trees, name);
    if keyId.Some? {
      assert !Target(trees, keyId, name, keyId.value);
    }
  }

  lemma FindsTarget(trees: seq<LocalTree>, name: string)
    ensures if FindTree(trees, name).Some? then Target(trees, None, name, FindTree(trees, name).value)
            else Unheld(trees, name)
  {
    FindTreeFinds(trees, name);
  }

  // ----- what applying does to the store

  /** Only the tree at k may differ. */
  predicate OnlyTree(before: seq<LocalTree>, after: seq<LocalTree>, k: nat) {
    |after| == |before| && forall j :: 0 <= j < |before| && j != k ==> after[j] == before[j]
  }

  /** The tree and the store's keys, as the rows of a snapshot's nodes are read. */
  function Reading(t: LocalTree, keys: seq<HardwareKey>): Work {
    Work(t.rows, keys, 0)
  }

  lemma ReadAlike(enc: Encoding, before: LocalTree, after: LocalTree, w: Work, s: PublicTree)
    requires Exact(enc, before, after, w, s)
    ensures Exact(enc, before, after, Reading(after, w.keys), s)
  {
    forall n | n in s.nodes ensures Placed(enc, Reading(after, w.keys), n) {
      assert Placed(enc, Work(after.rows, w.keys, w.nextId), n);
    }
  }

  /** A snapshot whose label the store holds, when it is applied, makes the first tree of that label, or the one
  named, exactly the snapshot, and no other tree is changed or added. */
  lemma HeldIsUpdated(enc: Encoding, db: Personal, keyId: Option<nat>, s: PublicTree, k: nat, after: Personal, at: nat)
    requires StoreOk(db) && Target(db.trees, keyId, s.name, k) && ParentsListed(s.nodes)
    requires Applied(enc, db, keyId, s) == Ok((after, at))
    ensures at == k && OnlyTree(db.trees, after.trees, k)
    ensures Exact(enc, db.trees[k], after.trees[k], Reading(after.trees[k], after.keys), s)
  {
    ChoosesTarget(db.trees, keyId, s.name, k);
    StoredRowsOk(db, k);
    var done := ApplyTo(enc, db.trees[k], db.keys, NextRowId(db.trees), s).value;
    ApplyIsExact(enc, db.trees[k], db.keys, NextRowId(db.trees), s);
    ReadAlike(enc, db.trees[k], done.0, done.1, s);
  }

  /** A snapshot whose label the store does not hold adds exactly one tree, which is exactly the snapshot. */
  lemma UnheldIsAdded(enc: Encoding, db: Personal, s: PublicTree, after: Personal, at: nat)
    requires StoreOk(db) && Unheld(db.trees, s.name) && ParentsListed(s.nodes)
    requires Applied(enc, db, None, s) == Ok((after, at))
    ensures at == |db.trees| && |after.trees| == at + 1 && after.trees[..at] == db.trees
    ensures Exact(enc, FreshTree(s.name), after.trees[at], Reading(after.trees[at], after.keys), s)
  {
    ChoosesFresh(db.trees, s.name);
    var blank := FreshTree(s.name);
    var done := ApplyTo(enc, blank, db.keys, NextRowId(db.trees), s).value;
    ApplyIsExact(enc, blank, db.keys, NextRowId(db.trees), s);
    ReadAlike(enc, blank, done.0, done.1, s);
  }

  // ----- when it succeeds

  /** The stored tree can take this snapshot. */
  ghost predicate CanTake(enc: Encoding, db: Personal, k: nat, s: PublicTree)
    requires k < |db.trees|
  {
    db.trees[k].generation <= s.generation && AllFit(enc, db.keys, s.nodes) && AllTake(db.trees[k].rows, s.nodes)
  }

  /** A valid snapshot is applied if and only if the tree it is for can take it or, where the label is new, it has
  a generation and its keys fit. */
  lemma AppliedIff(enc: Encoding, db: Personal, keyId: Option<nat>, s: PublicTree)
    requires EncodingLaws(enc) && ValidTree(s) && StoreOk(db)
    ensures Applied(enc, db, keyId, s).Ok? <==>
      || (exists k: nat :: Target(db.trees, keyId, s.name, k) && CanTake(enc, db, k, s))
      || (keyId.None? && Unheld(db.trees, s.name) && s.generation >= 1 && AllFit(enc, db.keys, s.nodes))
  {
    if k: nat :| Target(db.trees, keyId, s.name, k) {
      HeldAppliedIff(enc, db, keyId, s, k);
    } else {
      ChoosesNone(db.trees, keyId, s.name);
      if keyId.None? {
        ChoosesFresh(db.trees, s.name);
        FreshApplyIff(enc, db.keys, NextRowId(db.trees), s);
      }
    }
  }

  lemma HeldAppliedIff(enc: Encoding, db: Personal, keyId: Option<nat>, s: PublicTree, k: nat)
    requires EncodingLaws(enc) && ValidTree(s) && StoreOk(db) && Target(db.trees, keyId, s.name, k)
    ensures Applied(enc, db, keyId, s).Ok? <==> CanTake(enc, db, k, s)
    ensures forall j: nat :: Target(db.trees, keyId, s.name, j) ==> j == k
  {
    ChoosesTarget(db.trees, keyId, s.name, k);
    StoredRowsOk(db, k);
    ApplyIff(enc, db.trees[k], db.keys, NextRowId(db.trees), s);
  }

  /** What is refused, and why: in each case the store is left as it was. */
  lemma RefusalsSay(enc: Encoding, db: Personal, keyId: Option<nat>, s: PublicTree)
    ensures s.nodes == [] ==> Applied(enc, db, keyId, s) == Err(InvalidTreeSpec)
    ensures s.nodes != [] && keyId.Some? && keyId.value >= |db.trees| ==> Applied(enc, db, keyId, s) == Err(TreeNotFound)
    ensures s.nodes != [] && keyId.Some? && keyId.value < |db.trees| && db.trees[keyId.value].name != s.name ==>
      Applied(enc, db, keyId, s) == Err(InvalidTreeSpec)
    ensures forall k: nat :: s.nodes != [] && Target(db.trees, keyId, s.name, k) ==>
      && (s.generation < db.trees[k].generation ==> Applied(enc, db, keyId, s) == Err(StalePublicTree))
      && (s.generation >= db.trees[k].generation && !DistinctNames(s.nodes) ==>
            Applied(enc, db, keyId, s) == Err(DuplicateNodeLabel))
    ensures Applied(enc, db, keyId, s).Err? ==> AfterPull(enc, db, Pull(keyId, s)) == db
  {
    DistinctUnlessRepeated(s.nodes);
    forall k: nat | Target(db.trees, keyId, s.name, k) ensures Choose(db.trees, keyId, s.name) == Ok((k, db.trees)) {
      ChoosesTarget(db.trees, keyId, s.name, k);
    }
  }

  // ----- runs of pulls

  ghost predicate LabelsDiffer(trees: seq<LocalTree>) {
    forall i, j :: 0 <= i < j < |trees| ==> trees[i].name != trees[j].name
  }

  /** The tree reads as the snapshot does: its nodes, the edges among them, its label and its generation. */
  ghost predicate Says(enc: Encoding, t: LocalTree, keys: seq<HardwareKey>, s: PublicTree) {
    && t.name == s.name && t.generation == s.generation
    && Ordered(t.rows) && NamesDiffer(t.rows) && RowNames(t.rows) == Names(s.nodes)
    && (forall n :: n in s.nodes ==> Placed(enc, Reading(t, keys), n))
    && (forall i, peer :: 0 <= i < |t.rows| && peer in Names(s.nodes) ==>
          ((t.rows[i].id, peer) in t.whitelist <==> PublicEdge(t.rows[i].name, peer) in s.whitelist))
    && LinksExact(t, s)
  }

  lemma SaysStays(enc: Encoding, t: LocalTree, keys: seq<HardwareKey>, more: seq<HardwareKey>, s: PublicTree)
    requires Says(enc, t, keys, s) && keys <= more
    ensures Says(enc, t, more, s)
  {
    forall n | n in s.nodes ensures Placed(enc, Reading(t, more), n) {
      assert Placed(enc, Reading(t, keys), n);
    }
  }

  lemma ExactSays(enc: Encoding, before: LocalTree, t: LocalTree, keys: seq<HardwareKey>, s: PublicTree)
    requires Exact(enc, before, t, Reading(t, keys), s) && before.name == s.name
    ensures Says(enc, t, keys, s)
  {
  }

  /** An applied pull leaves one tree that says the snapshot, and the others, and the known keys, as they were. */
  lemma PullActs(enc: Encoding, db: Personal, p: Pull) returns (at: nat)
    requires StoreOk(db) && ParentsListed(p.snapshot.nodes) && Applied(enc, db, p.keyId, p.snapshot).Ok?
    ensures var after := AfterPull(enc, db, p);
      && |db.trees| <= |after.trees| <= |db.trees| + 1 && (|after.trees| > |db.trees| ==> at == |db.trees|)
      && at < |after.trees| && Says(enc, after.trees[at], after.keys, p.snapshot) && db.keys <= after.keys
      && (forall j :: 0 <= j < |db.trees| && j != at ==> after.trees[j] == db.trees[j])
      && (if at < |db.trees| then db.trees[at].name == p.snapshot.name else Unheld(db.trees, p.snapshot.name))
  {
    var s, after := p.snapshot, AfterPull(enc, db, p);
    at := Applied(enc, db, p.keyId, s).value.1;
    PullGrowsKeys(enc, db, p);
    if k: nat :| Target(db.trees, p.keyId, s.name, k) {
      HeldIsUpdated(enc, db, p.keyId, s, k, after, at);
      ExactSays(enc, db.trees[k], after.trees[k], after.keys, s);
    } else {
      ChoosesNone(db.trees, p.keyId, s.name);
      UnheldIsAdded(enc, db, s, after, at);
      ExactSays(enc, FreshTree(s.name), after.trees[at], after.keys, s);
      assert forall j :: 0 <= j < |db.trees| ==> after.trees[j] == after.trees[..at][j];
    }
  }

  lemma PullGrowsKeys(enc: Encoding, db: Personal, p: Pull)
    requires StoreOk(db)
    ensures db.keys <= AfterPull(enc, db, p).keys
  {
    if Applied(enc, db, p.keyId, p.snapshot).Ok? {
      var c := Choose(db.trees, p.keyId, p.snapshot.name).value;
      ChosenOk(db, p.keyId, p.snapshot.name);
      ApplyToKeepsOk(enc, c.1[c.0], db.keys, NextRowId(db.trees), p.snapshot);
    }
  }

  lemma PullKeepsLabels(enc: Encoding, db: Personal, p: Pull)
    requires StoreOk(db) && LabelsDiffer(db.trees) && ParentsListed(p.snapshot.nodes)
    ensures LabelsDiffer(AfterPull(enc, db, p).trees)
  {
    if Applied(enc, db, p.keyId, p.snapshot).Ok? {
      var at := PullActs(enc, db, p);
    }
  }

  ghost predicate AllListed(pulls: seq<Pull>) {
    forall i :: 0 <= i < |pulls| ==> ParentsListed(pulls[i].snapshot.nodes)
  }

  lemma {:induction false} AfterLast(enc: Encoding, db: Personal, pulls: seq<Pull>, p: Pull)
    ensures AfterPulls(enc, db, pulls + [p]) == AfterPull(enc, AfterPulls(enc, db, pulls), p)
    decreases pulls
  {
    if pulls == [] {
      assert [p][1..] == [];
    } else {
      assert (pulls + [p])[1..] == pulls[1..] + [p];
      AfterLast(enc, AfterPull(enc, db, pulls[0]), pulls[1..], p);
    }
  }

  /** The last snapshot of this label that a run applied. */
  function LastApplied(enc: Encoding, db: Personal, pulls: seq<Pull>, name: string): Option<PublicTree> {
    if pulls == [] then None
    else
      var front, p := pulls[..|pulls| - 1], pulls[|pulls| - 1];
      if p.snapshot.name == name && Applied(enc, AfterPulls(enc, db, front), p.keyId, p.snapshot).Ok? then Some(p.snapshot)
      else LastApplied(enc, db, front, name)
  }

  /** What a store says of one label after a run: the last snapshot applied, or what it said before. */
  ghost predicate SaysLast(enc: Encoding, before: Personal, after: Personal, name: string, last: Option<PublicTree>) {
    match last
    case Some(s) => s.name == name && exists k :: 0 <= k < |after.trees| && Says(enc, after.trees[k], after.keys, s)
    case None =>
      && |before.trees| <= |after.trees|
      && forall k :: 0 <= k < |after.trees| && after.trees[k].name == name ==>
        k < |before.trees| && after.trees[k] == before.trees[k]
  }

  lemma SaysLastSteps(enc: Encoding, db: Personal, before: Personal, p: Pull, name: string, last: Option<PublicTree>)
    requires StoreOk(before) && LabelsDiffer(before.trees) && ParentsListed(p.snapshot.nodes)
    requires SaysLast(enc, db, before, name, last)
    ensures
      var applied := p.snapshot.name == name && Applied(enc, before, p.keyId, p.snapshot).Ok?;
      SaysLast(enc, db, AfterPull(enc, before, p), name, if applied then Some(p.snapshot) else last)
  {
    if Applied(enc, before, p.keyId, p.snapshot).Ok? {
      var at := PullActs(enc, before, p);
      var after := AfterPull(enc, before, p);
      if p.snapshot.name != name && last.Some? {
        var k :| 0 <= k < |before.trees| && Says(enc, before.trees[k], before.keys, last.value);
        assert after.trees[k] == before.trees[k];
        SaysStays(enc, before.trees[k], before.keys, after.keys, last.value);
      }
    }
  }

  /** After any run of pulls, applied or refused, no two trees share a label, and of every label the store says what
  the last applied snapshot of that label says; where the run applied none, it says what it said before. */
  lemma {:induction false} StoreSaysLast(enc: Encoding, db: Personal, pulls: seq<Pull>, name: string)
    requires StoreOk(db) && LabelsDiffer(db.trees) && AllListed(pulls)
    ensures var after := AfterPulls(enc, db, pulls);
      StoreOk(after) && LabelsDiffer(after.trees) && SaysLast(enc, db, after, name, LastApplied(enc, db, pulls, name))
  {
    if pulls != [] {
      var front, p := pulls[..|pulls| - 1], pulls[|pulls| - 1];
      assert pulls == front + [p];
      StoreSaysLast(enc, db, front, name);
      AfterLast(enc, db, front, p);
      var before := AfterPulls(enc, db, front);
      PullKeeps(enc, before, p);
      PullKeepsLabels(enc, before, p);
      SaysLastSteps(enc, db, before, p, name, LastApplied(enc, db, front, name));
    }
  }

  // ----- the hardware keys

  predicate NamesKey(enc: Encoding, n: PublicNode, public: PublicKey) {
    n.publicKey.Some? && enc.unhex(n.publicKey.value) == Some(public)
  }

  /** Key k is a new encryption key that some node names. */
  ghost predicate Registered(enc: Encoding, keys: seq<HardwareKey>, k: nat, nodes: seq<PublicNode>)
    requires k < |keys|
  {
    && keys[k].encryption && !keys[k].revoked && (exists n :: n in nodes && NamesKey(enc, n, keys[k].public))
    && forall j :: 0 <= j < k ==> enc.fingerprint(keys[j].public) != enc.fingerprint(keys[k].public)
  }

  /** The known keys stay as they are, and each one added is registered. */
  ghost predicate KeysAdded(enc: Encoding, before: seq<HardwareKey>, after: seq<HardwareKey>, nodes: seq<PublicNode>) {
    before <= after && forall k :: |before| <= k < |after| ==> Registered(enc, after, k, nodes)
  }

  lemma NodeRegisters(enc: Encoding, w: Work, n: PublicNode)
    requires ApplyNode(enc, w, n).Ok?
    ensures KeysAdded(enc, w.keys, ApplyNode(enc, w, n).value.keys, [n])
  {
    if n.publicKey.Some? {
      var public := enc.unhex(n.publicKey.value).value;
      FindKeyFinds(w.keys, public);
      FindFingerprintFinds(enc, w.keys, enc.fingerprint(public));
      assert n in [n];
    }
  }

  lemma {:induction false} OrderRegisters(enc: Encoding, w: Work, order: seq<PublicNode>)
    requires ApplyAll(enc, w, order).Ok?
    ensures KeysAdded(enc, w.keys, ApplyAll(enc, w, order).value.keys, order)
    decreases order
  {
    if order != [] {
      var mid := ApplyNode(enc, w, order[0]).value;
      NodeRegisters(enc, w, order[0]);
      OrderRegisters(enc, mid, order[1..]);
      RegisteredTwice(enc, w.keys, mid.keys, ApplyAll(enc, w, order).value.keys, order);
    }
  }

  lemma RegisteredTwice(enc: Encoding, a: seq<HardwareKey>, b: seq<HardwareKey>, c: seq<HardwareKey>, order: seq<PublicNode>)
    requires order != [] && KeysAdded(enc, a, b, [order[0]]) && KeysAdded(enc, b, c, order[1..])
    ensures KeysAdded(enc, a, c, order)
  {
    forall k | |a| <= k < |c| ensures Registered(enc, c, k, order) {
      if k < |b| {
        assert Registered(enc, b, k, [order[0]]);
      } else {
        assert Registered(enc, c, k, order[1..]);
        var n :| n in order[1..] && NamesKey(enc, n, c[k].public);
        assert n in order;
      }
    }
  }

  /** An applied snapshot adds only encryption keys that its nodes name, each once, and changes no known one. */
  lemma PullRegisters(enc: Encoding, db: Personal, keyId: Option<nat>, s: PublicTree)
    requires Applied(enc, db, keyId, s).Ok?
    ensures KeysAdded(enc, db.keys, Applied(enc, db, keyId, s).value.0.keys, s.nodes)
  {
    var c := Choose(db.trees, keyId, s.name).value;
    var w := Work(c.1[c.0].rows, db.keys, NextRowId(db.trees));
    var order := Scheduled(s.nodes).order;
    OrderRegisters(enc, w, order);
    PassesFacts(s.nodes, {}, Names(s.nodes));
    SameNames(order, [], s.nodes);
    var after := ApplyAll(enc, w, order).value.keys;
    forall k | |db.keys| <= k < |after| ensures Registered(enc, after, k, s.nodes) {
      assert Registered(enc, after, k, order);
    }
  }

  // ----- edges

  /** An applied snapshot's whitelist and links join different labels of it, and each link is whitelisted at one end. */
  lemma AppliedEdges(enc: Encoding, t: LocalTree, keys: seq<HardwareKey>, nextId: int, s: PublicTree)
    requires RowsOk(Work(t.rows, keys, nextId)) && ParentsListed(s.nodes) && s.nodes != []
    requires ApplyTo(enc, t, keys, nextId, s).Ok?
    ensures forall e :: e in s.whitelist ==> EndsOk(e, Names(s.nodes))
    ensures forall e :: e in s.links ==>
      EndsOk(e, Names(s.nodes)) && Authorized(ApplyTo(enc, t, keys, nextId, s).value.0, e)
  {
    var w := ApplyTo(enc, t, keys, nextId, s).value.1;
    var placed := t.(rows := w.rows);
    DistinctUnlessRepeated(s.nodes);
    ApplyNodesFacts(enc, Work(t.rows, keys, nextId), s.nodes);
    PlacedRooted(enc, w, s.nodes);
    ReconcileRows(placed, s);
    ReconciledEdges(placed, s);
  }

  lemma ReconciledEdges(t: LocalTree, s: PublicTree)
    requires Reconcile(t, s).Ok?
    requires var d := DropRows(t, Names(s.nodes)); Ordered(d.rows) && NamesDiffer(d.rows) && RowNames(d.rows) == Names(s.nodes)
    ensures forall e :: e in s.whitelist ==> EndsOk(e, Names(s.nodes))
    ensures forall e :: e in s.links ==> EndsOk(e, Names(s.nodes)) && Authorized(Reconcile(t, s).value, e)
  {
    var d := DropEdges(DropRows(t, Names(s.nodes)));
    var allowed := AllowAll(d, s.whitelist).value;
    AllowAllIff(d, s.whitelist);
    AllowAllRows(d, s.whitelist);
    LinkAllIff(allowed, s.links);
    LinkAllRows(allowed, s.links);
    LinkAllWhitelist(allowed, s.links);
    forall e | e in s.links ensures EndsOk(e, Names(s.nodes)) && Authorized(Reconcile(t, s).value, e) {
      assert Linkable(allowed, e);
    }
  }

  lemma {:induction false} LinkAllWhitelist(t: LocalTree, edges: seq<PublicEdge>)
    requires LinkAll(t, edges).Ok?
    ensures LinkAll(t, edges).value.whitelist == t.whitelist
    decreases edges
  {
    if edges != [] {
      LinkAllWhitelist(Link(t, edges[0]).value, edges[1..]);
    }
  }

  // ----- no edge outlives its node

  /** Whitelist rows hang on rows of the tree, and links join two of them. */
  ghost predicate Tied(t: LocalTree) {
    && (forall e :: e in t.whitelist ==> e.0 in Ids(t.rows))
    && (forall l :: l in t.links ==> l.0 in Ids(t.rows) && l.1 in Ids(t.rows) && l.0 < l.1)
  }

  lemma {:induction false} AllowAllTies(t: LocalTree, edges: seq<PublicEdge>)
    requires Tied(t) && AllowAll(t, edges).Ok?
    ensures Tied(AllowAll(t, edges).value)
    decreases edges
  {
    if edges != [] {
      IndexOfNameFinds(t.rows, edges[0].source);
      AllowAllTies(Allow(t, edges[0]).value, edges[1..]);
    }
  }

  lemma {:induction false} LinkAllTies(t: LocalTree, edges: seq<PublicEdge>)
    requires Tied(t) && LinkAll(t, edges).Ok?
    ensures Tied(LinkAll(t, edges).value)
    decreases edges
  {
    if edges != [] {
      IndexOfNameFinds(t.rows, edges[0].source);
      IndexOfNameFinds(t.rows, edges[0].target);
      LinkAllTies(Link(t, edges[0]).value, edges[1..]);
    }
  }

  lemma DropsTie(t: LocalTree, remaining: set<string>)
    requires Tied(t)
    ensures Tied(DropEdges(DropRows(t, remaining)))
  {
    var doomed := Doomed(t.rows, GoneIds(t.rows, remaining));
    var rows := DropRows(t, remaining).rows;
    KeepMembers(t.rows, Stays(doomed));
    forall id | id in Ids(t.rows) && id !in doomed ensures id in Ids(rows) {
      var i :| 0 <= i < |t.rows| && t.rows[i].id == id;
      assert t.rows[i] in rows;
    }
  }

  lemma GrownIds(before: Work, after: Work, names: set<string>)
    requires NamesDiffer(before.rows) && Grown(before, after, names)
    ensures Ids(before.rows) <= Ids(after.rows)
  {
    forall i | 0 <= i < |before.rows| ensures before.rows[i].id in Ids(after.rows) {
      RowNamedIs(before.rows, i);
      var j := RowNamedAt(after.rows, before.rows[i].name);
      assert after.rows[j].id == before.rows[i].id;
    }
  }

  ghost predicate AllTied(db: Personal) {
    forall k :: 0 <= k < |db.trees| ==> Tied(db.trees[k])
  }

  lemma ReconcileTies(t: LocalTree, s: PublicTree)
    requires Tied(t) && Reconcile(t, s).Ok?
    ensures Tied(Reconcile(t, s).value)
  {
    var d := DropEdges(DropRows(t, Names(s.nodes)));
    DropsTie(t, Names(s.nodes));
    AllowAllTies(d, s.whitelist);
    LinkAllTies(AllowAll(d, s.whitelist).value, s.links);
  }

  lemma ApplyToTies(enc: Encoding, t: LocalTree, keys: seq<HardwareKey>, nextId: int, s: PublicTree)
    requires Tied(t) && RowsOk(Work(t.rows, keys, nextId)) && ApplyTo(enc, t, keys, nextId, s).Ok?
    ensures Tied(ApplyTo(enc, t, keys, nextId, s).value.0)
  {
    var w := Work(t.rows, keys, nextId);
    var placed := ApplyNodes(enc, w, s.nodes).value;
    DistinctUnlessRepeated(s.nodes);
    ApplyNodesFacts(enc, w, s.nodes);
    GrownIds(w, placed, Names(s.nodes));
    ReconcileTies(t.(rows := placed.rows), s);
  }

  /** A pull leaves no whitelist row or link behind on a row that is gone. */
  lemma PullTies(enc: Encoding, db: Personal, p: Pull)
    requires StoreOk(db) && AllTied(db)
    ensures AllTied(AfterPull(enc, db, p))
  {
    if Applied(enc, db, p.keyId, p.snapshot).Ok? {
      var c := Choose(db.trees, p.keyId, p.snapshot.name).value;
      ChosenOk(db, p.keyId, p.snapshot.name);
      ApplyToTies(enc, c.1[c.0], db.keys, NextRowId(db.trees), p.snapshot);
    }
  }
}
