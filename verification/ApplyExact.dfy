/** After a snapshot is applied, the tree is the snapshot. */
module ApplyExact {
  import opened Errors
  import opened Lists
  import opened PublicTrees
  import opened OrgTree
  import opened TreeMerge
  import opened KeyStore
  import opened ApplyTree
  import opened ApplySchedule
  import opened ApplyRows

  // ----- edges

  lemma NodeIdIs(rows: seq<Row>, i: nat, name: string)
    requires Ordered(rows) && NamesDiffer(rows) && i < |rows| && NodeId(rows, name).Ok?
    ensures NodeId(rows, name).value == rows[i].id <==> name == rows[i].name
  {
    IndexOfNameFinds(rows, name);
  }

  lemma {:induction false} AllowAllAt(t: LocalTree, edges: seq<PublicEdge>, i: nat, peer: string)
    requires Ordered(t.rows) && NamesDiffer(t.rows) && i < |t.rows| && AllowAll(t, edges).Ok?
    ensures var after := AllowAll(t, edges).value;
      && after == t.(whitelist := after.whitelist)
      && ((t.rows[i].id, peer) in after.whitelist <==>
            (t.rows[i].id, peer) in t.whitelist || PublicEdge(t.rows[i].name, peer) in edges)
    decreases edges
  {
    if edges != [] {
      var e := edges[0];
      NodeIdIs(t.rows, i, e.source);
      AllowAllAt(Allow(t, e).value, edges[1..], i, peer);
      assert edges == [e] + edges[1..];
    }
  }

  lemma PairOfRows(rows: seq<Row>, i: nat, j: nat, a: nat, b: nat)
    requires Ordered(rows) && NamesDiffer(rows) && i < |rows| && j < |rows| && a < |rows| && b < |rows|
    ensures Pair(rows[i].id, rows[j].id) == Pair(rows[a].id, rows[b].id) <==>
      (rows[i].name == rows[a].name && rows[j].name == rows[b].name)
      || (rows[i].name == rows[b].name && rows[j].name == rows[a].name)
  {
    RowIdName(rows, i, a);
    RowIdName(rows, i, b);
    RowIdName(rows, j, a);
    RowIdName(rows, j, b);
  }

  lemma RowIdName(rows: seq<Row>, i: nat, a: nat)
    requires Ordered(rows) && NamesDiffer(rows) && i < |rows| && a < |rows|
    ensures rows[i].id == rows[a].id <==> rows[i].name == rows[a].name
  {
  }

  lemma {:induction false} LinkAllAt(t: LocalTree, edges: seq<PublicEdge>, i: nat, j: nat)
    requires Ordered(t.rows) && NamesDiffer(t.rows) && i < |t.rows| && j < |t.rows| && LinkAll(t, edges).Ok?
    ensures var after := LinkAll(t, edges).value;
      && after == t.(links := after.links)
      && (Pair(t.rows[i].id, t.rows[j].id) in after.links <==>
            Pair(t.rows[i].id, t.rows[j].id) in t.links
            || PublicEdge(t.rows[i].name, t.rows[j].name) in edges
            || PublicEdge(t.rows[j].name, t.rows[i].name) in edges)
    decreases edges
  {
    if edges != [] {
      var e := edges[0];
      IndexOfNameFinds(t.rows, e.source);
      IndexOfNameFinds(t.rows, e.target);
      var a, b := IndexOfName(t.rows, e.source).value, IndexOfName(t.rows, e.target).value;
      PairOfRows(t.rows, i, j, a, b);
      LinkAllAt(Link(t, e).value, edges[1..], i, j);
      assert edges == [e] + edges[1..];
    }
  }

  // ----- the tree after a successful apply

  /** The whitelist rows of a node: to labels of the snapshot exactly its edges, to others those of before. */
  ghost predicate WhitelistExact(before: LocalTree, after: LocalTree, s: PublicTree) {
    forall i, peer :: 0 <= i < |after.rows| ==>
      ((after.rows[i].id, peer) in after.whitelist <==>
        if peer in Names(s.nodes) then PublicEdge(after.rows[i].name, peer) in s.whitelist
        else (after.rows[i].id, peer) in before.whitelist)
  }

  /** Two nodes are linked exactly when the snapshot links them, in either direction. */
  ghost predicate LinksExact(after: LocalTree, s: PublicTree) {
    forall i, j :: 0 <= i < |after.rows| && 0 <= j < |after.rows| ==>
      (Pair(after.rows[i].id, after.rows[j].id) in after.links <==>
        PublicEdge(after.rows[i].name, after.rows[j].name) in s.links
        || PublicEdge(after.rows[j].name, after.rows[i].name) in s.links)
  }

  lemma {:induction false} AllowedTargets(t: LocalTree, edges: seq<PublicEdge>, e: PublicEdge)
    requires AllowAll(t, edges).Ok? && e in edges
    ensures e.target in RowNames(t.rows)
    decreases edges
  {
    if e == edges[0] {
      IndexOfNameFinds(t.rows, e.target);
      var i := IndexOfName(t.rows, e.target).value;
      assert t.rows[i].name in RowNames(t.rows);
    } else {
      assert edges == [edges[0]] + edges[1..];
      AllowedTargets(Allow(t, edges[0]).value, edges[1..], e);
    }
  }

  lemma DroppedEdges(t: LocalTree, remaining: set<string>, i: nat, peer: string)
    requires var d := DropRows(t, remaining); Ordered(d.rows) && i < |d.rows|
    ensures var d := DropRows(t, remaining);
      (d.rows[i].id, peer) in DropEdges(d).whitelist <==> peer !in RowNames(d.rows) && (d.rows[i].id, peer) in t.whitelist
  {
    var d := DropRows(t, remaining);
    var gone := Doomed(t.rows, GoneIds(t.rows, remaining));
    KeepMembers(t.rows, Stays(gone));
    assert d.rows[i] in d.rows;
    assert d.rows[i].id in Ids(d.rows);
  }

  lemma ReconcileRows(t: LocalTree, s: PublicTree)
    requires Ordered(t.rows) && NamesDiffer(t.rows) && Rooted(t.rows, Names(s.nodes))
    requires Names(s.nodes) <= RowNames(t.rows) && s.nodes != [] && Reconcile(t, s).Ok?
    ensures var after := Reconcile(t, s).value;
      && Ordered(after.rows) && NamesDiffer(after.rows) && RowNames(after.rows) == Names(s.nodes)
      && after.rows == DropRows(t, Names(s.nodes)).rows
      && (forall x :: x in Names(s.nodes) ==> RowNamed(after.rows, x) == RowNamed(t.rows, x))
      && after.generation == s.generation && after.name == t.name
  {
    DropRowsFacts(t, Names(s.nodes));
    var d := DropEdges(DropRows(t, Names(s.nodes)));
    NameIn(s.nodes, s.nodes[0]);
    assert s.nodes[0].name in RowNames(d.rows);
    AllowAllAt(d, s.whitelist, 0, "");
    LinkAllAt(AllowAll(d, s.whitelist).value, s.links, 0, 0);
  }

  lemma ReconcileEdges(t: LocalTree, s: PublicTree)
    requires Ordered(t.rows) && NamesDiffer(t.rows) && Rooted(t.rows, Names(s.nodes))
    requires Names(s.nodes) <= RowNames(t.rows) && s.nodes != [] && Reconcile(t, s).Ok?
    ensures WhitelistExact(t, Reconcile(t, s).value, s) && LinksExact(Reconcile(t, s).value, s)
  {
    ReconcileRows(t, s);
    var after := Reconcile(t, s).value;
    var d := DropEdges(DropRows(t, Names(s.nodes)));
    var allowed := AllowAll(d, s.whitelist).value;
    forall i, peer | 0 <= i < |after.rows|
      ensures (after.rows[i].id, peer) in after.whitelist <==>
        if peer in Names(s.nodes) then PublicEdge(after.rows[i].name, peer) in s.whitelist
        else (after.rows[i].id, peer) in t.whitelist
    {
      DroppedEdges(t, Names(s.nodes), i, peer);
      AllowAllAt(d, s.whitelist, i, peer);
      LinkAllAt(allowed, s.links, i, i);
      if PublicEdge(after.rows[i].name, peer) in s.whitelist {
        AllowedTargets(d, s.whitelist, PublicEdge(after.rows[i].name, peer));
      }
    }
    forall i, j | 0 <= i < |after.rows| && 0 <= j < |after.rows|
      ensures Pair(after.rows[i].id, after.rows[j].id) in after.links <==>
        PublicEdge(after.rows[i].name, after.rows[j].name) in s.links
        || PublicEdge(after.rows[j].name, after.rows[i].name) in s.links
    {
      AllowAllAt(d, s.whitelist, i, "");
      LinkAllAt(allowed, s.links, i, j);
      assert after.rows[i].id in Ids(d.rows) && after.rows[j].id in Ids(d.rows);
    }
  }

  lemma RowIsNode(rows: seq<Row>, nodes: seq<PublicNode>, i: nat) returns (n: PublicNode)
    requires NamesDiffer(rows) && i < |rows| && rows[i].name in Names(nodes)
    ensures n in nodes && n.name == rows[i].name && RowNamed(rows, n.name) == Some(rows[i])
  {
    n := NameOf(nodes, rows[i].name);
    RowNamedIs(rows, i);
  }

  lemma PlacedRooted(enc: Encoding, w: Work, nodes: seq<PublicNode>)
    requires RowsOk(w) && ParentsListed(nodes) && forall n :: n in nodes ==> Placed(enc, w, n)
    ensures Rooted(w.rows, Names(nodes)) && Names(nodes) <= RowNames(w.rows)
  {
    forall i | 0 <= i < |w.rows| && w.rows[i].name in Names(nodes) && w.rows[i].parent.Some?
      ensures exists j :: 0 <= j < |w.rows| && w.rows[j].name in Names(nodes) && w.rows[j].id == w.rows[i].parent.value
    {
      var n := RowIsNode(w.rows, nodes, i);
      var k :| 0 <= k < |nodes| && nodes[k] == n;
      assert ParentListed(nodes[k], Names(nodes));
      var j := RowNamedAt(w.rows, n.parent.value);
    }
    forall x | x in Names(nodes) ensures x in RowNames(w.rows) {
      var n := NameOf(nodes, x);
      RowNamedNone(w.rows, x);
    }
  }

  /** The tree says what the snapshot says, retained rows keep their ids and, with the same hardware key, their
  sealed shares, and new rows hold none. */
  ghost predicate Exact(enc: Encoding, before: LocalTree, after: LocalTree, w: Work, s: PublicTree) {
    && Ordered(after.rows) && NamesDiffer(after.rows) && RowNames(after.rows) == Names(s.nodes)
    && (forall n :: n in s.nodes ==> Placed(enc, Work(after.rows, w.keys, w.nextId), n))
    && (forall x :: x in Names(s.nodes) && RowNamed(before.rows, x).Some? ==>
          RowNamed(after.rows, x).Some? && Kept(RowNamed(before.rows, x).value, RowNamed(after.rows, x).value))
    && (forall x :: x in Names(s.nodes) && RowNamed(before.rows, x).None? ==>
          RowNamed(after.rows, x).Some? && RowNamed(after.rows, x).value.wrapped.None?)
    && WhitelistExact(before, after, s) && LinksExact(after, s)
    && after.name == before.name && after.generation == s.generation >= before.generation
  }

  lemma DistinctUnlessRepeated(nodes: seq<PublicNode>)
    ensures NamesRepeat(nodes) <==> !DistinctNames(nodes)
  {
  }

  /** Applying a snapshot whose parents are all listed, when it succeeds, makes the tree exactly the
  snapshot: the same labels, parents, thresholds, active flags, keys, whitelist and links. */
  lemma ApplyIsExact(enc: Encoding, t: LocalTree, keys: seq<HardwareKey>, nextId: int, s: PublicTree)
    requires RowsOk(Work(t.rows, keys, nextId)) && ParentsListed(s.nodes) && s.nodes != []
    requires ApplyTo(enc, t, keys, nextId, s).Ok?
    ensures var r := ApplyTo(enc, t, keys, nextId, s).value; Exact(enc, t, r.0, r.1, s)
  {
    var r := ApplyTo(enc, t, keys, nextId, s).value;
    DistinctUnlessRepeated(s.nodes);
    ApplyNodesFacts(enc, Work(t.rows, keys, nextId), s.nodes);
    var placed := t.(rows := r.1.rows);
    PlacedRooted(enc, r.1, s.nodes);
    ReconcileRows(placed, s);
    ReconcileEdges(placed, s);
    forall n | n in s.nodes ensures Placed(enc, Work(r.0.rows, r.1.keys, r.1.nextId), n) {
      PlacedAfterDrop(enc, r.1, r.0.rows, s.nodes, n);
    }
  }

  lemma PlacedAfterDrop(enc: Encoding, w: Work, rows: seq<Row>, nodes: seq<PublicNode>, n: PublicNode)
    requires n in nodes && ParentsListed(nodes) && Placed(enc, w, n)
    requires forall x :: x in Names(nodes) ==> RowNamed(rows, x) == RowNamed(w.rows, x)
    ensures Placed(enc, Work(rows, w.keys, w.nextId), n)
  {
    NameIn(nodes, n);
    var k :| 0 <= k < |nodes| && nodes[k] == n;
    assert ParentListed(nodes[k], Names(nodes));
  }

  /** A snapshot whose parents contain a cycle is refused, and so is one older than the stored tree. */
  lemma ApplyRefuses(enc: Encoding, t: LocalTree, keys: seq<HardwareKey>, nextId: int, s: PublicTree)
    ensures s.generation < t.generation ==> ApplyTo(enc, t, keys, nextId, s) == Err(StalePublicTree)
    ensures DistinctNames(s.nodes) && !Acyclic(ParentMap(s.nodes)) ==> ApplyTo(enc, t, keys, nextId, s).Err?
  {
    DistinctUnlessRepeated(s.nodes);
    if DistinctNames(s.nodes) {
      StuckIffCycle(s.nodes);
    }
  }
}
