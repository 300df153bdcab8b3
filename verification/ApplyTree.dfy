/** Applying a public tree to a personal store and exporting it again
(`apply_public_tree`, `export_public_tree` in `src/key_tree.rs`). */
module ApplyTree {
  import opened Errors
  import opened Field
  import opened Lists
  import opened PublicTrees
  import KeyTree
  import Strings
  import opened KeyStore

  /** The tree of one key: its row in `keys` with the rows that belong to it. */
  datatype LocalTree = LocalTree(
    name: string,
    generation: nat,
    rows: seq<Row>,
    whitelist: set<(int, string)>,
    links: set<(int, int)>)

  /** A personal store. Trees and hardware keys are known by their position, nodes by their id. */
  datatype Personal = Personal(trees: seq<LocalTree>, keys: seq<HardwareKey>)

  /** Hexadecimal text and fingerprints of public keys. */
  datatype Encoding = Encoding(hex: Bytes -> string, unhex: string -> Option<Bytes>, fingerprint: Bytes -> string)

  // ----- one node

  /** What applying nodes changes. */
  datatype Work = Work(rows: seq<Row>, keys: seq<HardwareKey>, nextId: int)

  function FindKey(keys: seq<HardwareKey>, public: PublicKey): Option<nat> {
    if keys == [] then None
    else if keys[|keys| - 1].public == public then Some(|keys| - 1)
    else FindKey(keys[..|keys| - 1], public)
  }

  function FindFingerprint(enc: Encoding, keys: seq<HardwareKey>, fp: string): Option<nat> {
    if keys == [] then None
    else if enc.fingerprint(keys[|keys| - 1].public) == fp then Some(|keys| - 1)
    else FindFingerprint(enc, keys[..|keys| - 1], fp)
  }

  /** `get_or_register_encryption`; fingerprints are unique in the table. */
  function GetOrRegister(enc: Encoding, keys: seq<HardwareKey>, public: PublicKey): Result<(seq<HardwareKey>, nat)> {
    if |public| != 32 then Err(InvalidPublicKey)
    else match FindKey(keys, public)
      case Some(k) => Ok((keys, k))
      case None =>
        if FindFingerprint(enc, keys, enc.fingerprint(public)).Some? then Err(Db)
        else Ok((keys + [HardwareKey(public, true, false)], |keys|))
  }

  /** The hardware key a node names, by its public key or by its fingerprint. */
  function ResolveKey(enc: Encoding, keys: seq<HardwareKey>, n: PublicNode): Result<(seq<HardwareKey>, Option<nat>)> {
    match n.publicKey
    case Some(text) =>
      if enc.unhex(text).None? then Err(InvalidPublicKey) else
      var public := enc.unhex(text).value;
      var found :- GetOrRegister(enc, keys, public);
      if n.fingerprint.Some? && enc.fingerprint(public) != n.fingerprint.value then Err(InvalidPublicKey)
      else Ok((found.0, Some(found.1)))
    case None =>
      match n.fingerprint
      case None => Ok((keys, None))
      case Some(fp) =>
        match FindFingerprint(enc, keys, fp)
        case None => Err(InvalidPublicKey)
        case Some(k) => Ok((keys, Some(k)))
  }

  function ParentId(rows: seq<Row>, parent: Option<string>): Result<Option<int>> {
    match parent
    case None => Ok(None)
    case Some(p) =>
      IndexOfNameFinds(rows, p);
      match IndexOfName(rows, p)
      case None => Err(NodeNotFound)
      case Some(i) => Ok(Some(rows[i].id))
  }

  /** The CHECK of `key_nodes`, and the trigger that keeps signing keys off the leaves. */
  predicate RowAllowed(keys: seq<HardwareKey>, row: Row) {
    match row.threshold
    case Some(t) => t > 0 && row.hardwareKey.None? && row.wrapped.None?
    case None => row.hardwareKey.Some? && 0 <= row.hardwareKey.value < |keys| && keys[row.hardwareKey.value].encryption
  }

  /** The UPDATE: a sealed share survives unless the leaf gets another hardware key. */
  function UpdatedRow(row: Row, parent: Option<int>, n: PublicNode, key: Option<nat>): Row {
    row.(
      parent := parent,
      threshold := n.threshold,
      wrapped := if key.Some? && row.hardwareKey != Some(key.value) then None else row.wrapped,
      hardwareKey := if row.wrapped.Some? && key.None? then row.hardwareKey
                     else if key.Some? then Some(key.value) else None,
      active := n.active)
  }

  function NewRow(id: int, parent: Option<int>, n: PublicNode, key: Option<nat>): Row {
    Row(id, parent, n.name, n.threshold, if key.Some? then Some(key.value) else None, None, n.active)
  }

  function PutRow(w: Work, keys: seq<HardwareKey>, parent: Option<int>, n: PublicNode, key: Option<nat>): Result<Work> {
    IndexOfNameFinds(w.rows, n.name);
    match IndexOfName(w.rows, n.name)
    case Some(i) =>
      var row := UpdatedRow(w.rows[i], parent, n, key);
      if RowAllowed(keys, row) then Ok(Work(w.rows[i := row], keys, w.nextId)) else Err(Db)
    case None =>
      var row := NewRow(w.nextId, parent, n, key);
      if RowAllowed(keys, row) then Ok(Work(w.rows + [row], keys, w.nextId + 1)) else Err(Db)
  }

  /** `apply_public_node` */
  function ApplyNode(enc: Encoding, w: Work, n: PublicNode): Result<Work> {
    var parent :- ParentId(w.rows, n.parent);
    var found :- ResolveKey(enc, w.keys, n);
    if n.threshold.None? && found.1.None? then Err(InvalidTreeSpec)
    else PutRow(w, found.0, parent, n, found.1)
  }

  function ApplyAll(enc: Encoding, w: Work, nodes: seq<PublicNode>): Result<Work>
    decreases nodes
  {
    if nodes == [] then Ok(w) else
    var next :- ApplyNode(enc, w, nodes[0]);
    ApplyAll(enc, next, nodes[1..])
  }

  lemma {:induction false} ApplyAllSplit(enc: Encoding, w: Work, a: seq<PublicNode>, b: seq<PublicNode>)
    ensures match ApplyAll(enc, w, a)
      case Ok(mid) => ApplyAll(enc, w, a + b) == ApplyAll(enc, mid, b)
      case Err(e) => ApplyAll(enc, w, a + b) == Err(e)
    decreases a
  {
    if a == [] {
      assert a + b == b;
    } else {
      assert (a + b)[1..] == a[1..] + b;
      var next := ApplyNode(enc, w, a[0]);
      if next.Ok? {
        ApplyAllSplit(enc, next.value, a[1..], b);
      }
    }
  }

  // ----- the order of application

  /** The node's parent is in the snapshot and has not been applied yet. */
  predicate Waits(n: PublicNode, ready: set<string>, remaining: set<string>) {
    n.parent.Some? && n.parent.value in remaining && n.parent.value !in ready
  }

  /** One pass over the pending nodes: which are applied, which are left for the next pass. */
  datatype Pass = Pass(applied: seq<PublicNode>, next: seq<PublicNode>, ready: set<string>)

  function Sift(pending: seq<PublicNode>, ready: set<string>, remaining: set<string>): (p: Pass)
    ensures |p.applied| + |p.next| == |pending|
    decreases pending
  {
    if pending == [] then Pass([], [], ready)
    else if Waits(pending[0], ready, remaining) then
      var p := Sift(pending[1..], ready, remaining);
      p.(next := [pending[0]] + p.next)
    else
      var p := Sift(pending[1..], ready + {pending[0].name}, remaining);
      p.(applied := [pending[0]] + p.applied)
  }

  /** All passes: the order in which nodes are applied, and whether a pass gets stuck. */
  datatype Schedule = Schedule(order: seq<PublicNode>, stuck: bool)

  function Passes(pending: seq<PublicNode>, ready: set<string>, remaining: set<string>): Schedule
    decreases |pending|
  {
    if pending == [] then Schedule([], false)
    else
      var p := Sift(pending, ready, remaining);
      if |p.next| == |pending| then Schedule([], true)
      else
        var rest := Passes(p.next, p.ready, remaining);
        Schedule(p.applied + rest.order, rest.stuck)
  }

  function Scheduled(nodes: seq<PublicNode>): Schedule {
    Passes(nodes, {}, Names(nodes))
  }

  /** The pending loop. */
  function ApplyNodes(enc: Encoding, w: Work, nodes: seq<PublicNode>): Result<Work> {
    var done :- ApplyAll(enc, w, Scheduled(nodes).order);
    if Scheduled(nodes).stuck then Err(InvalidTreeSpec) else Ok(done)
  }

  method ApplyPass(enc: Encoding, w: Work, pending: seq<PublicNode>, ready: set<string>, remaining: set<string>)
    returns (r: Result<(Work, seq<PublicNode>, set<string>)>)
    ensures var p := Sift(pending, ready, remaining);
      match ApplyAll(enc, w, p.applied)
      case Err(e) => r == Err(e)
      case Ok(done) => r == Ok((done, p.next, p.ready))
  {
    var done, next, known := w, [], ready;
    ghost var p := Sift(pending, ready, remaining);
    ghost var applied := [];
    var i := 0;
    while i < |pending|
      invariant 0 <= i <= |pending|
      invariant p.applied == applied + Sift(pending[i..], known, remaining).applied
      invariant p.next == next + Sift(pending[i..], known, remaining).next
      invariant p.ready == Sift(pending[i..], known, remaining).ready
      invariant ApplyAll(enc, w, applied) == Ok(done)
    {
      var node := pending[i];
      assert pending[i..][0] == node && pending[i..][1..] == pending[i + 1..];
      if node.parent.Some? && node.parent.value in remaining && node.parent.value !in known {
        next := next + [node];
      } else {
        ghost var rest := Sift(pending[i + 1..], known + {node.name}, remaining).applied;
        Assoc(applied, [node], rest);
        ApplyAllSplit(enc, w, applied, [node]);
        ApplyAllSplit(enc, w, applied + [node], rest);
        ApplyOne(enc, done, node);
        done :- ApplyNodeStep(enc, done, node);
        known := known + {node.name};
        applied := applied + [node];
      }
      i := i + 1;
    }
    assert pending[i..] == [] && applied + [] == applied && next + [] == next;
    return Ok((done, next, known));
  }

  lemma {:induction false} ApplyOne(enc: Encoding, w: Work, n: PublicNode)
    ensures ApplyAll(enc, w, [n]) == ApplyNode(enc, w, n)
  {
    assert [n][1..] == [];
  }

  /** `apply_public_node` as statements. */
  method ApplyNodeStep(enc: Encoding, w: Work, n: PublicNode) returns (r: Result<Work>)
    ensures r == ApplyNode(enc, w, n)
  {
    var parent :- ParentId(w.rows, n.parent);
    var found :- ResolveKey(enc, w.keys, n);
    if n.threshold.None? && found.1.None? {
      return Err(InvalidTreeSpec);
    }
    IndexOfNameFinds(w.rows, n.name);
    var existing := IndexOfName(w.rows, n.name);
    var row := if existing.Some? then UpdatedRow(w.rows[existing.value], parent, n, found.1)
               else NewRow(w.nextId, parent, n, found.1);
    if !RowAllowed(found.0, row) {
      return Err(Db);
    }
    return Ok(if existing.Some? then Work(w.rows[existing.value := row], found.0, w.nextId)
              else Work(w.rows + [row], found.0, w.nextId + 1));
  }

  method ApplyPending(enc: Encoding, w: Work, nodes: seq<PublicNode>) returns (r: Result<Work>)
    ensures r == ApplyNodes(enc, w, nodes)
  {
    var remaining := Names(nodes);
    var done, pending, ready := w, nodes, {};
    ghost var order: seq<PublicNode> := [];
    while pending != []
      invariant Scheduled(nodes).order == order + Passes(pending, ready, remaining).order
      invariant Scheduled(nodes).stuck == Passes(pending, ready, remaining).stuck
      invariant ApplyAll(enc, w, order) == Ok(done)
      decreases |pending|
    {
      var before := |pending|;
      ghost var p, rest := Sift(pending, ready, remaining), Passes(pending, ready, remaining);
      ApplyAllSplit(enc, w, order, p.applied);
      if |p.next| < before {
        Assoc(order, p.applied, Passes(p.next, p.ready, remaining).order);
        ApplyAllSplit(enc, w, order + p.applied, Passes(p.next, p.ready, remaining).order);
      }
      var step :- ApplyPass(enc, done, pending, ready, remaining);
      if |step.1| == before {
        assert order + [] == order;
        return Err(InvalidTreeSpec);
      }
      done, pending, ready := step.0, step.1, step.2;
      order := order + p.applied;
    }
    assert order + [] == order;
    return Ok(done);
  }

  // ----- rows and edges that go

  function Ids(rows: seq<Row>): set<int> {
    set i | 0 <= i < |rows| :: rows[i].id
  }

  function RowNames(rows: seq<Row>): set<string> {
    set i | 0 <= i < |rows| :: rows[i].name
  }

  /** The ids a delete takes with it, by the cascade from parents to children. */
  function Doomed(rows: seq<Row>, gone: set<int>): set<int>
    decreases |Ids(rows) - gone|
  {
    var more := set i | 0 <= i < |rows| && rows[i].parent.Some? && rows[i].parent.value in gone && rows[i].id !in gone
      :: rows[i].id;
    if more == {} then gone
    else
      assert Ids(rows) - gone == (Ids(rows) - (gone + more)) + more by { assert more <= Ids(rows); }
      Doomed(rows, gone + more)
  }

  function Stays(doomed: set<int>): Row -> bool {
    (row: Row) => row.id !in doomed
  }

  /** Drop the rows whose label the snapshot does not mention, with whatever hangs below them. */
  function DropRows(t: LocalTree, remaining: set<string>): LocalTree {
    var doomed := Doomed(t.rows, set i | 0 <= i < |t.rows| && t.rows[i].name !in remaining :: t.rows[i].id);
    t.(rows := Keep(t.rows, Stays(doomed)),
       whitelist := (set e | e in t.whitelist && e.0 !in doomed),
       links := (set e | e in t.links && e.0 !in doomed && e.1 !in doomed))
  }

  /** Drop the edges within the tree; whitelist rows that name a label outside the tree stay. */
  function DropEdges(t: LocalTree): LocalTree {
    t.(whitelist := (set e | e in t.whitelist && !(e.0 in Ids(t.rows) && e.1 in RowNames(t.rows))),
       links := (set e | e in t.links && !(e.0 in Ids(t.rows) && e.1 in Ids(t.rows))))
  }

  // ----- edges that come

  function NodeId(rows: seq<Row>, name: string): Result<int> {
    IndexOfNameFinds(rows, name);
    match IndexOfName(rows, name)
    case None => Err(NodeNotFound)
    case Some(i) => Ok(rows[i].id)
  }

  /** `allow_bridge` */
  function Allow(t: LocalTree, e: PublicEdge): Result<LocalTree> {
    if e.source == e.target then Err(InvalidBridge) else
    var id :- NodeId(t.rows, e.source);
    var _ :- NodeId(t.rows, e.target);
    Ok(t.(whitelist := t.whitelist + {(id, e.target)}))
  }

  function Pair(a: int, b: int): (int, int) {
    if a < b then (a, b) else (b, a)
  }

  function StoreOf(t: LocalTree): Store {
    Store(t.rows, map[], t.whitelist, t.links, 0)
  }

  /** `add_bridge` */
  function Link(t: LocalTree, e: PublicEdge): Result<LocalTree> {
    var arena :- Load(StoreOf(t));
    IndexOfNameFinds(t.rows, e.source);
    IndexOfNameFinds(t.rows, e.target);
    match (IndexOfName(t.rows, e.source), IndexOfName(t.rows, e.target))
    case (Some(a), Some(b)) =>
      if a == b then Err(InvalidBridge)
      else if e.target !in BridgesOf(t.whitelist, t.rows[a].id) && e.source !in BridgesOf(t.whitelist, t.rows[b].id)
      then Err(BridgeNotWhitelisted)
      else if t.rows[a].id == t.rows[b].id then Err(InvalidBridge)
      else Ok(t.(links := t.links + {Pair(t.rows[a].id, t.rows[b].id)}))
    case _ => Err(NodeNotFound)
  }

  function AllowAll(t: LocalTree, edges: seq<PublicEdge>): Result<LocalTree>
    decreases edges
  {
    if edges == [] then Ok(t) else
    var next :- Allow(t, edges[0]);
    AllowAll(next, edges[1..])
  }

  function LinkAll(t: LocalTree, edges: seq<PublicEdge>): Result<LocalTree>
    decreases edges
  {
    if edges == [] then Ok(t) else
    var next :- Link(t, edges[0]);
    LinkAll(next, edges[1..])
  }

  // ----- the whole operation

  predicate NamesRepeat(nodes: seq<PublicNode>) {
    exists i, j :: 0 <= i < j < |nodes| && nodes[i].name == nodes[j].name
  }

  /** The tree once its rows are in place: drop what is not mentioned, then put the snapshot's edges. */
  function Reconcile(t: LocalTree, snapshot: PublicTree): Result<LocalTree> {
    var allowed :- AllowAll(DropEdges(DropRows(t, Names(snapshot.nodes))), snapshot.whitelist);
    var linked :- LinkAll(allowed, snapshot.links);
    Ok(linked.(generation := snapshot.generation))
  }

  /** `apply_public_tree_inner` on the tree it has found or created. */
  function ApplyTo(enc: Encoding, t: LocalTree, keys: seq<HardwareKey>, nextId: int, snapshot: PublicTree)
    : Result<(LocalTree, Work)>
  {
    if snapshot.generation < t.generation then Err(StalePublicTree)
    else if NamesRepeat(snapshot.nodes) then Err(DuplicateNodeLabel)
    else
      var w :- ApplyNodes(enc, Work(t.rows, keys, nextId), snapshot.nodes);
      var done :- Reconcile(t.(rows := w.rows), snapshot);
      Ok((done, w))
  }

  function FindTree(trees: seq<LocalTree>, name: string): Option<nat> {
    if trees == [] then None
    else match FindTree(trees[..|trees| - 1], name)
      case Some(k) => Some(k)
      case None => if trees[|trees| - 1].name == name then Some(|trees| - 1) else None
  }

  lemma {:induction false} FindTreeFinds(trees: seq<LocalTree>, name: string)
    ensures match FindTree(trees, name)
      case Some(k) => k < |trees| && trees[k].name == name && forall j :: 0 <= j < k ==> trees[j].name != name
      case None => forall j :: 0 <= j < |trees| ==> trees[j].name != name
  {
    if trees != [] {
      FindTreeFinds(trees[..|trees| - 1], name);
    }
  }

  /** A key's tree as it is created. */
  function FreshTree(name: string): LocalTree {
    LocalTree(name, 1, [], {}, {})
  }

  /** The position of the tree to apply to, and the trees with a fresh one added if need be. */
  function Choose(trees: seq<LocalTree>, keyId: Option<nat>, name: string): (r: Result<(nat, seq<LocalTree>)>)
    ensures r.Ok? ==> r.value.0 < |r.value.1| && r.value.1[r.value.0].name == name
  {
    match keyId
    case Some(k) =>
      if k >= |trees| then Err(TreeNotFound)
      else if trees[k].name != name then Err(InvalidTreeSpec)
      else Ok((k, trees))
    case None =>
      FindTreeFinds(trees, name);
      match FindTree(trees, name)
      case Some(k) => Ok((k, trees))
      case None => Ok((|trees|, trees + [FreshTree(name)]))
  }

  function LargestId(rows: seq<Row>): int {
    if rows == [] then 0
    else
      var rest := LargestId(rows[..|rows| - 1]);
      if rest < rows[|rows| - 1].id then rows[|rows| - 1].id else rest
  }

  function LargestOf(trees: seq<LocalTree>): int {
    if trees == [] then 0
    else
      var rest, last := LargestOf(trees[..|trees| - 1]), LargestId(trees[|trees| - 1].rows);
      if rest < last then last else rest
  }

  /** The id SQLite gives the next row: one more than the largest in the table, so the id of a deleted
  last row is given again. */
  function NextRowId(trees: seq<LocalTree>): int {
    LargestOf(trees) + 1
  }

  /** `apply_public_tree`: the new store and the key, or an error. */
  function Applied(enc: Encoding, db: Personal, keyId: Option<nat>, snapshot: PublicTree): Result<(Personal, nat)> {
    if snapshot.nodes == [] then Err(InvalidTreeSpec) else
    var chosen :- Choose(db.trees, keyId, snapshot.name);
    var done :- ApplyTo(enc, chosen.1[chosen.0], db.keys, NextRowId(db.trees), snapshot);
    Ok((Personal(chosen.1[chosen.0 := done.0], done.1.keys), chosen.0))
  }

  /** By label at the source end, then at the target end. */
  predicate EdgeBefore(a: PublicEdge, b: PublicEdge) {
    Strings.Less(a.source, b.source) || (a.source == b.source && Strings.Less(a.target, b.target))
  }

  ghost predicate EdgesAscend(edges: seq<PublicEdge>) {
    forall i, j :: 0 <= i < j < |edges| ==> EdgeBefore(edges[i], edges[j])
  }

  lemma AscendDistinct(edges: seq<PublicEdge>)
    requires EdgesAscend(edges)
    ensures Distinct(edges)
  {
    forall i, j | 0 <= i < j < |edges| ensures edges[i] != edges[j] {
      assert EdgeBefore(edges[i], edges[j]);
      Strings.LessTotal(edges[i].source, edges[j].source);
      Strings.LessTotal(edges[i].target, edges[j].target);
    }
  }

  /** What `export_public_tree` lists: nodes in row order, edges in label order. */
  ghost predicate IsExport(enc: Encoding, t: LocalTree, keys: seq<HardwareKey>, p: PublicTree) {
    && Load(StoreOf(t)).Ok?
    && p.name == t.name && p.generation == t.generation
    && p.nodes == ExportNodes(enc, Load(StoreOf(t)).value, keys)
    && EdgesAscend(p.whitelist) && (forall e :: e in p.whitelist <==> ExportsWhitelist(t, e))
    && EdgesAscend(p.links) && (forall e :: e in p.links <==> ExportsLink(t, e))
  }

  function ExportNode(enc: Encoding, a: KeyTree.Arena, keys: seq<HardwareKey>, i: nat): PublicNode
    requires i < |a.nodes|
  {
    var n := a.nodes[i];
    var key := if n.hardwareKey.Some? && 0 <= n.hardwareKey.value < |keys| then Some(keys[n.hardwareKey.value].public)
               else None;
    PublicNode(n.name,
               if n.parent.Some? && n.parent.value < |a.nodes| then Some(a.nodes[n.parent.value].name) else None,
               n.threshold, n.active,
               if key.Some? then Some(enc.fingerprint(key.value)) else None,
               if key.Some? then Some(enc.hex(key.value)) else None)
  }

  function ExportNodes(enc: Encoding, a: KeyTree.Arena, keys: seq<HardwareKey>): seq<PublicNode> {
    seq(|a.nodes|, i requires 0 <= i < |a.nodes| => ExportNode(enc, a, keys, i))
  }

  ghost predicate ExportsWhitelist(t: LocalTree, e: PublicEdge) {
    exists i :: 0 <= i < |t.rows| && t.rows[i].name == e.source && (t.rows[i].id, e.target) in t.whitelist
  }

  ghost predicate ExportsLink(t: LocalTree, e: PublicEdge) {
    exists i, j :: 0 <= i < |t.rows| && 0 <= j < |t.rows| && t.rows[i].name == e.source && t.rows[j].name == e.target
      && (t.rows[i].id, t.rows[j].id) in t.links
  }

  class PersonalStore {
    var trees: seq<LocalTree>
    var keys: seq<HardwareKey>

    constructor ()
      ensures State() == Personal([], [])
    {
      trees, keys := [], [];
    }

    function State(): Personal
      reads this
    {
      Personal(trees, keys)
    }

    /** `apply_public_tree`, in one transaction: an error leaves the store as it was. */
    method ApplyPublicTree(enc: Encoding, keyId: Option<nat>, snapshot: PublicTree) returns (r: Result<nat>)
      modifies this
      ensures match Applied(enc, old(State()), keyId, snapshot)
        case Err(e) => r == Err(e) && State() == old(State())
        case Ok(done) => r == Ok(done.1) && State() == done.0
    {
      if snapshot.nodes == [] {
        return Err(InvalidTreeSpec);
      }
      var chosen :- Choose(trees, keyId, snapshot.name);
      var tree := chosen.1[chosen.0];
      if snapshot.generation < tree.generation {
        return Err(StalePublicTree);
      }
      if NamesRepeat(snapshot.nodes) {
        return Err(DuplicateNodeLabel);
      }
      var w :- ApplyPending(enc, Work(tree.rows, keys, NextRowId(trees)), snapshot.nodes);
      tree := DropEdges(DropRows(tree.(rows := w.rows), Names(snapshot.nodes)));
      tree :- AllowEdges(tree, snapshot.whitelist);
      tree :- LinkEdges(tree, snapshot.links);
      trees := chosen.1[chosen.0 := tree.(generation := snapshot.generation)];
      keys := w.keys;
      return Ok(chosen.0);
    }
  }

  method AllowEdges(t: LocalTree, edges: seq<PublicEdge>) returns (r: Result<LocalTree>)
    ensures r == AllowAll(t, edges)
  {
    var done := t;
    var i := 0;
    while i < |edges|
      invariant 0 <= i <= |edges| && AllowAll(t, edges) == AllowAll(done, edges[i..])
    {
      assert edges[i..][0] == edges[i] && edges[i..][1..] == edges[i + 1..];
      if edges[i].source == edges[i].target {
        return Err(InvalidBridge);
      }
      var id :- NodeId(done.rows, edges[i].source);
      var _ :- NodeId(done.rows, edges[i].target);
      done := done.(whitelist := done.whitelist + {(id, edges[i].target)});
      i := i + 1;
    }
    return Ok(done);
  }

  method LinkEdges(t: LocalTree, edges: seq<PublicEdge>) returns (r: Result<LocalTree>)
    ensures r == LinkAll(t, edges)
  {
    var done := t;
    var i := 0;
    while i < |edges|
      invariant 0 <= i <= |edges| && LinkAll(t, edges) == LinkAll(done, edges[i..])
    {
      assert edges[i..][0] == edges[i] && edges[i..][1..] == edges[i + 1..];
      done :- Link(done, edges[i]);
      i := i + 1;
    }
    return Ok(done);
  }
}
