/** When a valid tree applies, and that exporting it from a fresh tree gives it back. */
module ApplyRound {
  import opened Errors
  import opened Lists
  import opened PublicTrees
  import opened OrgTree
  import opened TreeMerge
  import opened TreeSlices
  import opened KeyStore
  import opened ApplyTree
  import opened ApplySchedule
  import opened ApplyRows
  import opened ApplyExact

  /** Hexadecimal text of a key reads back, every key-sized text reads as a key, and different keys have
  different fingerprints. */
  ghost predicate EncodingLaws(enc: Encoding) {
    && (forall b :: enc.unhex(enc.hex(b)) == Some(b))
    && (forall b :: |b| == 32 ==> IsHexKey(enc.hex(b)))
    && (forall text :: IsHexKey(text) ==> enc.unhex(text).Some? && |enc.unhex(text).value| == 32)
    && (forall a, b :: enc.fingerprint(a) == enc.fingerprint(b) ==> a == b)
  }

  // ----- when applying succeeds

  /** The store has registered this key, but for signing. */
  predicate HeldForSigning(keys: seq<HardwareKey>, public: PublicKey) {
    FindKeyFinds(keys, public);
    match FindKey(keys, public)
    case None => false
    case Some(k) => !keys[k].encryption
  }

  /** The node's key, if it has one, goes with its fingerprint and is not held for signing. */
  predicate Fits(enc: Encoding, keys: seq<HardwareKey>, n: PublicNode) {
    n.publicKey.Some? && enc.unhex(n.publicKey.value).Some? ==>
      var public := enc.unhex(n.publicKey.value).value;
      n.fingerprint == Some(enc.fingerprint(public)) && !HeldForSigning(keys, public)
  }

  ghost predicate AllFit(enc: Encoding, keys: seq<HardwareKey>, nodes: seq<PublicNode>) {
    forall n :: n in nodes ==> Fits(enc, keys, n)
  }

  /** A split does not land on a row that holds a sealed share. */
  predicate Takes(rows: seq<Row>, n: PublicNode) {
    n.threshold.Some? && RowNamed(rows, n.name).Some? ==> RowNamed(rows, n.name).value.wrapped.None?
  }

  ghost predicate AllTake(rows: seq<Row>, nodes: seq<PublicNode>) {
    forall n :: n in nodes ==> Takes(rows, n)
  }

  /** The keys of a store after a leaf's key has been looked up, or registered if it was unknown. */
  function WithKey(keys: seq<HardwareKey>, public: PublicKey): seq<HardwareKey> {
    if FindKey(keys, public).Some? then keys else keys + [HardwareKey(public, true, false)]
  }

  lemma LeafResolves(enc: Encoding, keys: seq<HardwareKey>, n: PublicNode)
    requires EncodingLaws(enc) && ShapeOk(n) && n.threshold.None?
    ensures enc.unhex(n.publicKey.value).Some?
    ensures var public := enc.unhex(n.publicKey.value).value;
      match ResolveKey(enc, keys, n)
      case Err(_) => n.fingerprint != Some(enc.fingerprint(public))
      case Ok((after, key)) =>
        && n.fingerprint == Some(enc.fingerprint(public)) && after == WithKey(keys, public)
        && key.Some? && key.value < |after| && (after[key.value].encryption <==> !HeldForSigning(keys, public))
  {
    var public := enc.unhex(n.publicKey.value).value;
    FindKeyFinds(keys, public);
    FindFingerprintFinds(enc, keys, enc.fingerprint(public));
  }

  lemma FitsStays(enc: Encoding, keys: seq<HardwareKey>, public: PublicKey, n: PublicNode)
    ensures Fits(enc, WithKey(keys, public), n) <==> Fits(enc, keys, n)
  {
    if n.publicKey.Some? && enc.unhex(n.publicKey.value).Some? {
      SigningStays(keys, public, enc.unhex(n.publicKey.value).value);
    }
  }

  lemma {:induction false} SigningStays(keys: seq<HardwareKey>, public: PublicKey, other: PublicKey)
    ensures HeldForSigning(WithKey(keys, public), other) <==> HeldForSigning(keys, other)
  {
    var after := WithKey(keys, public);
    FindKeyFinds(keys, other);
    if FindKey(keys, public).None? {
      assert after[..|keys|] == keys && after[|keys|].encryption;
      assert FindKey(after, other) == if other == public then Some(|keys|) else FindKey(keys, other);
    }
  }

  /** A node whose turn it is is applied exactly when its key fits and its row can take it. */
  lemma NodeApplies(enc: Encoding, w: Work, n: PublicNode, ready: set<string>, remaining: set<string>)
    requires RowsOk(w) && EncodingLaws(enc) && ShapeOk(n)
    requires ready <= RowNames(w.rows) && !Waits(n, ready, remaining) && ParentListed(n, remaining)
    ensures ApplyNode(enc, w, n).Ok? <==> Fits(enc, w.keys, n) && Takes(w.rows, n)
  {
    RowNamedNone(w.rows, n.name);
    IndexOfNameFinds(w.rows, n.name);
    if n.threshold.None? {
      LeafResolves(enc, w.keys, n);
    }
    if n.parent.Some? {
      RowNamedNone(w.rows, n.parent.value);
    }
  }

  lemma NodeAdds(enc: Encoding, w: Work, n: PublicNode)
    requires RowsOk(w) && EncodingLaws(enc) && ShapeOk(n) && ApplyNode(enc, w, n).Ok?
    ensures var after := ApplyNode(enc, w, n).value;
      && RowsOk(after) && RowNames(after.rows) == RowNames(w.rows) + {n.name}
      && OnlyRow(w.rows, after.rows, n.name) && KeysFitAlike(enc, w.keys, after.keys)
  {
    var after := ApplyNode(enc, w, n).value;
    ApplyNodeFacts(enc, w, n);
    forall x ensures x in RowNames(after.rows) <==> x in RowNames(w.rows) + {n.name} {
      RowNamedNone(after.rows, x);
      RowNamedNone(w.rows, x);
    }
    if n.threshold.None? {
      LeafResolves(enc, w.keys, n);
      forall m ensures Fits(enc, w.keys, m) <==> Fits(enc, after.keys, m) {
        FitsStays(enc, w.keys, enc.unhex(n.publicKey.value).value, m);
      }
    }
  }

  ghost predicate KeysFitAlike(enc: Encoding, keys: seq<HardwareKey>, more: seq<HardwareKey>) {
    forall m :: Fits(enc, keys, m) <==> Fits(enc, more, m)
  }

  ghost predicate Appliable(order: seq<PublicNode>, remaining: set<string>) {
    forall i :: 0 <= i < |order| ==> ShapeOk(order[i]) && ParentListed(order[i], remaining)
  }

  lemma {:induction false} OrderApplies(enc: Encoding, w: Work, order: seq<PublicNode>, ready: set<string>,
                                        remaining: set<string>)
    requires RowsOk(w) && EncodingLaws(enc) && ready <= RowNames(w.rows)
    requires DistinctNames(order) && ParentsFirst(order, ready, remaining) && Appliable(order, remaining)
    ensures ApplyAll(enc, w, order).Ok? <==> AllFit(enc, w.keys, order) && AllTake(w.rows, order)
    ensures ApplyAll(enc, w, order).Ok? ==> RowNames(ApplyAll(enc, w, order).value.rows) == RowNames(w.rows) + Names(order)
    decreases order
  {
    if order == [] {
      assert Names(order) == {};
    } else {
      var n, rest := order[0], order[1..];
      NamesFirst(order);
      NodeApplies(enc, w, n, ready, remaining);
      assert forall i :: 0 <= i < |rest| ==> rest[i] == order[i + 1];
      FitsFirst(enc, w.keys, order);
      if ApplyNode(enc, w, n).Ok? {
        var next := ApplyNode(enc, w, n).value;
        NodeAdds(enc, w, n);
        OrderApplies(enc, next, rest, ready + {n.name}, remaining);
        FitAlike(enc, w.keys, next.keys, rest);
        TakeAlike(w.rows, next.rows, order);
      }
    }
  }

  /** Applying the first node changes no row that a later one lands on. */
  lemma TakeAlike(rows: seq<Row>, after: seq<Row>, nodes: seq<PublicNode>)
    requires nodes != [] && DistinctNames(nodes) && OnlyRow(rows, after, nodes[0].name) && Takes(rows, nodes[0])
    ensures AllTake(after, nodes[1..]) <==> AllTake(rows, nodes)
  {
    forall i | 0 < i < |nodes| ensures Takes(after, nodes[i]) <==> Takes(rows, nodes[i]) {
      assert nodes[i].name != nodes[0].name;
    }
    assert nodes == [nodes[0]] + nodes[1..];
    forall n | n in nodes[1..] ensures Takes(after, n) <==> Takes(rows, n) {
      var i :| 0 <= i < |nodes| - 1 && nodes[1..][i] == n;
      assert nodes[i + 1] == n;
    }
  }

  lemma FitsFirst(enc: Encoding, keys: seq<HardwareKey>, nodes: seq<PublicNode>)
    requires nodes != []
    ensures AllFit(enc, keys, nodes) <==> Fits(enc, keys, nodes[0]) && AllFit(enc, keys, nodes[1..])
  {
    assert nodes == [nodes[0]] + nodes[1..];
  }

  lemma FitAlike(enc: Encoding, keys: seq<HardwareKey>, more: seq<HardwareKey>, nodes: seq<PublicNode>)
    requires KeysFitAlike(enc, keys, more)
    ensures AllFit(enc, keys, nodes) <==> AllFit(enc, more, nodes)
  {
  }

  lemma NodesApply(enc: Encoding, w: Work, s: PublicTree, r: nat)
    requires RowsOk(w) && EncodingLaws(enc) && ValidWithRoot(s, r)
    ensures ApplyNodes(enc, w, s.nodes).Ok? <==> AllFit(enc, w.keys, s.nodes) && AllTake(w.rows, s.nodes)
    ensures ApplyNodes(enc, w, s.nodes).Ok? ==>
      RowNames(ApplyNodes(enc, w, s.nodes).value.rows) == RowNames(w.rows) + Names(s.nodes)
  {
    var order := Scheduled(s.nodes).order;
    ValidSchedule(s, r);
    OrderApplies(enc, w, order, {}, Names(s.nodes));
  }

  /** A valid tree is scheduled to the end: every node once, parents first. */
  lemma ValidSchedule(s: PublicTree, r: nat)
    requires ValidWithRoot(s, r)
    ensures var order := Scheduled(s.nodes).order;
      && !Scheduled(s.nodes).stuck && ParentsFirst(order, {}, Names(s.nodes))
      && DistinctNames(order) && Names(order) == Names(s.nodes) && (forall n :: n in order <==> n in s.nodes)
      && Appliable(order, Names(s.nodes))
  {
    var order := Scheduled(s.nodes).order;
    ValidIsAcyclic(s, r);
    StuckIffCycle(s.nodes);
    PassesFacts(s.nodes, {}, Names(s.nodes));
    DistinctByMultiset(order, s.nodes);
    SameNames(order, [], s.nodes);
    assert Names([]) == {};
    forall i | 0 <= i < |order| ensures ShapeOk(order[i]) && ParentListed(order[i], Names(s.nodes)) {
      assert order[i] in s.nodes;
      var k :| 0 <= k < |s.nodes| && s.nodes[k] == order[i];
    }
  }

  lemma AllowIff(t: LocalTree, e: PublicEdge)
    ensures Allow(t, e).Ok? <==> EndsOk(e, RowNames(t.rows))
  {
    RowNamedNone(t.rows, e.source);
    RowNamedNone(t.rows, e.target);
  }

  /** Whitelist rows are put exactly if each joins two labels of the tree. */
  lemma {:induction false} AllowAllIff(t: LocalTree, edges: seq<PublicEdge>)
    ensures AllowAll(t, edges).Ok? <==> forall e :: e in edges ==> EndsOk(e, RowNames(t.rows))
    decreases edges
  {
    if edges != [] {
      AllowIff(t, edges[0]);
      assert edges == [edges[0]] + edges[1..];
      if Allow(t, edges[0]).Ok? {
        AllowAllIff(Allow(t, edges[0]).value, edges[1..]);
      }
    }
  }

  /** One end's whitelist names the other. */
  predicate Authorized(t: LocalTree, e: PublicEdge) {
    exists i :: 0 <= i < |t.rows|
      && ((t.rows[i].name == e.source && (t.rows[i].id, e.target) in t.whitelist)
          || (t.rows[i].name == e.target && (t.rows[i].id, e.source) in t.whitelist))
  }

  predicate Linkable(t: LocalTree, e: PublicEdge) {
    EndsOk(e, RowNames(t.rows)) && Authorized(t, e)
  }

  lemma LinkIff(t: LocalTree, e: PublicEdge)
    requires Ordered(t.rows) && NamesDiffer(t.rows)
    ensures Link(t, e).Ok? <==> Load(StoreOf(t)).Ok? && Linkable(t, e)
  {
    RowNamedNone(t.rows, e.source);
    RowNamedNone(t.rows, e.target);
    IndexOfNameFinds(t.rows, e.source);
    IndexOfNameFinds(t.rows, e.target);
    if e.source in RowNames(t.rows) && e.target in RowNames(t.rows) {
      var a, b := IndexOfName(t.rows, e.source).value, IndexOfName(t.rows, e.target).value;
      RowIdName(t.rows, a, b);
      AuthorizedAt(t, e, a, b);
    }
  }

  lemma AuthorizedAt(t: LocalTree, e: PublicEdge, a: nat, b: nat)
    requires NamesDiffer(t.rows) && a < |t.rows| && b < |t.rows| && t.rows[a].name == e.source && t.rows[b].name == e.target
    ensures Authorized(t, e) <==>
      e.target in BridgesOf(t.whitelist, t.rows[a].id) || e.source in BridgesOf(t.whitelist, t.rows[b].id)
  {
    if Authorized(t, e) {
      var i :| 0 <= i < |t.rows|
        && ((t.rows[i].name == e.source && (t.rows[i].id, e.target) in t.whitelist)
            || (t.rows[i].name == e.target && (t.rows[i].id, e.source) in t.whitelist));
      assert i == if t.rows[i].name == e.source && (t.rows[i].id, e.target) in t.whitelist then a else b;
    }
  }

  lemma LoadsAlike(t: LocalTree, t': LocalTree)
    requires t.rows == t'.rows
    ensures Load(StoreOf(t)).Ok? <==> Load(StoreOf(t')).Ok?
  {
  }

  /** Links are put exactly if each joins two labels of a tree that loads, one of which whitelists the other. */
  lemma {:induction false} LinkAllIff(t: LocalTree, edges: seq<PublicEdge>)
    requires Ordered(t.rows) && NamesDiffer(t.rows)
    ensures LinkAll(t, edges).Ok? <==>
      (edges == [] || Load(StoreOf(t)).Ok?) && forall e :: e in edges ==> Linkable(t, e)
    decreases edges
  {
    if edges != [] {
      LinkIff(t, edges[0]);
      assert edges == [edges[0]] + edges[1..];
      if Link(t, edges[0]).Ok? {
        var next := Link(t, edges[0]).value;
        LoadsAlike(t, next);
        LinkAllIff(next, edges[1..]);
        assert forall e :: Linkable(next, e) <==> Linkable(t, e);
      }
    }
  }

  lemma {:induction false} FirstRootFinds(rows: seq<Row>, j: nat, r: nat)
    requires j <= r < |rows| && rows[r].parent.None?
    ensures FirstRoot(rows, j).Some?
    decreases r - j
  {
    if rows[j].parent.Some? {
      FirstRootFinds(rows, j + 1, r);
    }
  }

  lemma {:induction false} IdInRows(rows: seq<Row>, j: nat)
    requires j < |rows|
    ensures IndexOfId(rows, rows[j].id).Some?
  {
    IndexOfIdFinds(rows, rows[j].id);
  }

  lemma PlacedLoads(enc: Encoding, w: Work, t: LocalTree, s: PublicTree, r: nat)
    requires RowsOk(w) && t.rows == w.rows && RowNames(w.rows) == Names(s.nodes)
    requires RootAt(s.nodes, r) && ParentsListed(s.nodes)
    requires forall n :: n in s.nodes ==> Placed(enc, w, n)
    ensures Load(StoreOf(t)).Ok?
  {
    var rows := w.rows;
    assert Placed(enc, w, s.nodes[r]);
    var k := RowNamedAt(rows, s.nodes[r].name);
    FirstRootFinds(rows, 0, k);
    PlacedRooted(enc, w, s.nodes);
    RootedHasNoOrphans(rows);
  }

  lemma RootedHasNoOrphans(rows: seq<Row>)
    requires Rooted(rows, RowNames(rows))
    ensures !Orphans(rows)
  {
    forall i | 0 <= i < |rows| && rows[i].parent.Some? ensures IndexOfId(rows, rows[i].parent.value).Some? {
      assert rows[i].name in RowNames(rows);
      var j :| 0 <= j < |rows| && rows[j].name in RowNames(rows) && rows[j].id == rows[i].parent.value;
      IdInRows(rows, j);
    }
  }

  lemma {:induction false} WhitelistAuthorizes(d: LocalTree, s: PublicTree, e: PublicEdge)
    requires Ordered(d.rows) && NamesDiffer(d.rows) && AllowAll(d, s.whitelist).Ok? && Whitelisted(e, s.whitelist)
    requires EndsOk(e, RowNames(d.rows))
    ensures Authorized(AllowAll(d, s.whitelist).value, e)
  {
    var i :| 0 <= i < |d.rows| && d.rows[i].name == e.source;
    var j :| 0 <= j < |d.rows| && d.rows[j].name == e.target;
    AllowAllAt(d, s.whitelist, i, e.target);
    AllowAllAt(d, s.whitelist, j, e.source);
    if e in s.whitelist {
      assert PublicEdge(d.rows[i].name, e.target) == e;
    } else {
      assert PublicEdge(d.rows[j].name, e.source) == e.Flipped();
    }
  }

  /** A valid tree applies to a stored one if and only if it is no older, every leaf's key fits, and no split lands on
  a sealed share. */
  lemma ApplyIff(enc: Encoding, t: LocalTree, keys: seq<HardwareKey>, nextId: int, s: PublicTree)
    requires EncodingLaws(enc) && ValidTree(s) && RowsOk(Work(t.rows, keys, nextId))
    ensures ApplyTo(enc, t, keys, nextId, s).Ok? <==>
      t.generation <= s.generation && AllFit(enc, keys, s.nodes) && AllTake(t.rows, s.nodes)
  {
    var r: nat :| ValidWithRoot(s, r);
    var w0 := Work(t.rows, keys, nextId);
    DistinctUnlessRepeated(s.nodes);
    NodesApply(enc, w0, s, r);
    if ApplyNodes(enc, w0, s.nodes).Ok? {
      var w := ApplyNodes(enc, w0, s.nodes).value;
      ApplyNodesFacts(enc, w0, s.nodes);
      Reconciles(enc, w, t.(rows := w.rows), s, r);
    }
  }

  /** A valid tree applies to an empty one if and only if it has a generation and every leaf's key fits. */
  lemma FreshApplyIff(enc: Encoding, keys: seq<HardwareKey>, nextId: int, s: PublicTree)
    requires EncodingLaws(enc) && ValidTree(s)
    ensures ApplyTo(enc, FreshTree(s.name), keys, nextId, s).Ok? <==> s.generation >= 1 && AllFit(enc, keys, s.nodes)
  {
    ApplyIff(enc, FreshTree(s.name), keys, nextId, s);
  }

  /** Dropping what a snapshot does not mention leaves its own rows as they were placed. */
  lemma DroppedOk(enc: Encoding, w: Work, t: LocalTree, s: PublicTree)
    requires RowsOk(w) && t.rows == w.rows && ParentsListed(s.nodes) && s.nodes != []
    requires forall n :: n in s.nodes ==> Placed(enc, w, n)
    ensures var rows := DropRows(t, Names(s.nodes)).rows;
      && RowsOk(Work(rows, w.keys, w.nextId)) && RowNames(rows) == Names(s.nodes)
      && forall n :: n in s.nodes ==> Placed(enc, Work(rows, w.keys, w.nextId), n)
  {
    var rows := DropRows(t, Names(s.nodes)).rows;
    PlacedRooted(enc, w, s.nodes);
    DropRowsFacts(t, Names(s.nodes));
    KeepMembers(t.rows, Stays(Doomed(t.rows, GoneIds(t.rows, Names(s.nodes)))));
    forall i | 0 <= i < |rows| ensures rows[i].id < w.nextId && RowAllowed(w.keys, rows[i]) {
      assert rows[i] in t.rows;
    }
    forall n | n in s.nodes ensures Placed(enc, Work(rows, w.keys, w.nextId), n) {
      PlacedAfterDrop(enc, w, rows, s.nodes, n);
    }
  }

  lemma Allows(d: LocalTree, s: PublicTree, r: nat)
    requires ValidWithRoot(s, r) && Ordered(d.rows) && NamesDiffer(d.rows) && RowNames(d.rows) == Names(s.nodes)
    ensures AllowAll(d, s.whitelist).Ok? && AllowAll(d, s.whitelist).value.rows == d.rows
  {
    AllowAllIff(d, s.whitelist);
    NameIn(s.nodes, s.nodes[0]);
    assert s.nodes[0].name in RowNames(d.rows);
    AllowAllAt(d, s.whitelist, 0, "");
  }

  lemma Reconciles(enc: Encoding, w: Work, t: LocalTree, s: PublicTree, r: nat)
    requires ValidWithRoot(s, r) && RowsOk(w) && t.rows == w.rows
    requires forall n :: n in s.nodes ==> Placed(enc, w, n)
    ensures Reconcile(t, s).Ok?
  {
    DroppedOk(enc, w, t, s);
    var d := DropEdges(DropRows(t, Names(s.nodes)));
    Allows(d, s, r);
    var allowed := AllowAll(d, s.whitelist).value;
    PlacedLoads(enc, Work(d.rows, w.keys, w.nextId), allowed, s, r);
    forall e | e in s.links ensures Linkable(allowed, e) {
      WhitelistAuthorizes(d, s, e);
    }
    LinkAllIff(allowed, s.links);
  }

  lemma {:induction false} KeepAll<T>(s: seq<T>, p: T -> bool)
    requires forall x :: x in s ==> p(x)
    ensures Keep(s, p) == s
  {
    if s != [] {
      assert s[0] in s;
      KeepAll(s[1..], p);
    }
  }

  lemma NothingDropped(t: LocalTree, remaining: set<string>)
    requires Ordered(t.rows) && RowNames(t.rows) == remaining
    ensures DropRows(t, remaining).rows == t.rows
  {
    assert forall i :: 0 <= i < |t.rows| ==> t.rows[i].name in RowNames(t.rows);
    assert GoneIds(t.rows, remaining) == {};
    DoomedIsGone(t.rows, {});
    KeepAll(t.rows, Stays({}));
  }

  // ----- exporting

  /** The node with its key in the spelling an export writes. */
  function Respelled(enc: Encoding, n: PublicNode): PublicNode {
    if n.publicKey.Some? && enc.unhex(n.publicKey.value).Some? then
      n.(publicKey := Some(enc.hex(enc.unhex(n.publicKey.value).value)))
    else n
  }

  function RespelledAll(enc: Encoding, nodes: seq<PublicNode>): (r: seq<PublicNode>)
    ensures |r| == |nodes| && forall i :: 0 <= i < |nodes| ==> r[i] == Respelled(enc, nodes[i])
  {
    seq(|nodes|, i requires 0 <= i < |nodes| => Respelled(enc, nodes[i]))
  }

  function RespelledTree(enc: Encoding, t: PublicTree): PublicTree {
    t.(nodes := RespelledAll(enc, t.nodes))
  }

  lemma ExportedNode(enc: Encoding, w: Work, t: LocalTree, s: PublicTree, i: nat) returns (n: PublicNode)
    requires ParentsListed(s.nodes) && NodesOk(s.nodes)
    requires RowsOk(w) && t.rows == w.rows && RowNames(w.rows) == Names(s.nodes)
    requires forall n :: n in s.nodes ==> Placed(enc, w, n)
    requires Load(StoreOf(t)).Ok? && i < |t.rows|
    ensures |Load(StoreOf(t)).value.nodes| == |t.rows|
    ensures n in s.nodes && n.name == t.rows[i].name
    ensures ExportNode(enc, Load(StoreOf(t)).value, w.keys, i) == Respelled(enc, n)
  {
    assert t.rows[i].name in RowNames(t.rows);
    n := RowIsNode(t.rows, s.nodes, i);
    var k :| 0 <= k < |s.nodes| && s.nodes[k] == n;
    assert ShapeOk(s.nodes[k]) && ParentListed(s.nodes[k], Names(s.nodes));
    if n.parent.Some? {
      var j := RowNamedAt(t.rows, n.parent.value);
      IndexOfIdIs(t.rows, j);
    }
    assert KeyMatches(enc, w.keys, n, t.rows[i].hardwareKey);
  }

  /** What the rows export and the snapshot's nodes respelled, one for one. */
  ghost predicate ExportsAs(p: seq<PublicNode>, rows: seq<Row>, q: seq<PublicNode>) {
    && |p| == |rows|
    && (forall i :: 0 <= i < |p| ==> p[i] in q && p[i].name == rows[i].name)
    && (forall k :: 0 <= k < |q| ==> q[k] in p)
  }

  lemma NodesExport(enc: Encoding, w: Work, t: LocalTree, s: PublicTree)
    requires ParentsListed(s.nodes) && NodesOk(s.nodes)
    requires RowsOk(w) && t.rows == w.rows && RowNames(w.rows) == Names(s.nodes)
    requires forall n :: n in s.nodes ==> Placed(enc, w, n)
    requires Load(StoreOf(t)).Ok?
    ensures ExportsAs(ExportNodes(enc, Load(StoreOf(t)).value, w.keys), t.rows, RespelledAll(enc, s.nodes))
  {
    var p, q := ExportNodes(enc, Load(StoreOf(t)).value, w.keys), RespelledAll(enc, s.nodes);
    forall i | 0 <= i < |t.rows| ensures |p| == |t.rows| && p[i] in q && p[i].name == t.rows[i].name {
      var n := ExportedNode(enc, w, t, s, i);
      var k :| 0 <= k < |s.nodes| && s.nodes[k] == n;
      assert q[k] == p[i];
    }
    forall k | 0 <= k < |q| ensures q[k] in p {
      NameIn(s.nodes, s.nodes[k]);
      var i :| 0 <= i < |t.rows| && t.rows[i].name == s.nodes[k].name;
      var n := ExportedNode(enc, w, t, s, i);
      SameNode(s.nodes, s.nodes[k], n);
      assert p[i] == q[k];
    }
  }

  lemma NodesComeBack(enc: Encoding, w: Work, t: LocalTree, s: PublicTree)
    requires ParentsListed(s.nodes) && NodesOk(s.nodes)
    requires RowsOk(w) && t.rows == w.rows && RowNames(w.rows) == Names(s.nodes)
    requires forall n :: n in s.nodes ==> Placed(enc, w, n)
    requires Load(StoreOf(t)).Ok?
    ensures multiset(ExportNodes(enc, Load(StoreOf(t)).value, w.keys)) == multiset(RespelledAll(enc, s.nodes))
  {
    var p, q := ExportNodes(enc, Load(StoreOf(t)).value, w.keys), RespelledAll(enc, s.nodes);
    NodesExport(enc, w, t, s);
    forall i, j | 0 <= i < j < |p| ensures p[i] != p[j] {
      assert t.rows[i].name != t.rows[j].name;
    }
    assert forall i, j :: 0 <= i < j < |q| ==> q[i].name != q[j].name;
    SameUpToOrder(p, q);
  }

  lemma SameNode(nodes: seq<PublicNode>, a: PublicNode, b: PublicNode)
    requires DistinctNames(nodes) && a in nodes && b in nodes && a.name == b.name
    ensures a == b
  {
    var i :| 0 <= i < |nodes| && nodes[i] == a;
    var j :| 0 <= j < |nodes| && nodes[j] == b;
  }

  /** The tree a store exports right after applying a snapshot to an empty tree of its own. */
  ghost predicate SameTree(p: PublicTree, s: PublicTree) {
    && p.name == s.name && p.generation == s.generation
    && multiset(p.nodes) == multiset(s.nodes)
    && multiset(p.whitelist) == multiset(s.whitelist)
    && Distinct(p.links)
    && (forall e :: e in p.links || e.Flipped() in p.links <==> e in s.links || e.Flipped() in s.links)
  }

  /** Ids of linked rows are stored in ascending order. */
  ghost predicate LinksAscend(links: set<(int, int)>) {
    forall l :: l in links ==> l.0 < l.1
  }

  lemma {:induction false} LinkAllAscends(t: LocalTree, edges: seq<PublicEdge>)
    requires LinksAscend(t.links) && LinkAll(t, edges).Ok?
    ensures LinksAscend(LinkAll(t, edges).value.links)
    decreases edges
  {
    if edges != [] {
      LinkAllAscends(Link(t, edges[0]).value, edges[1..]);
    }
  }

  lemma WhitelistAt(before: LocalTree, after: LocalTree, s: PublicTree, i: nat, peer: string)
    requires WhitelistExact(before, after, s) && i < |after.rows|
    ensures peer in Names(s.nodes) ==>
      ((after.rows[i].id, peer) in after.whitelist <==> PublicEdge(after.rows[i].name, peer) in s.whitelist)
    ensures peer !in Names(s.nodes) ==>
      ((after.rows[i].id, peer) in after.whitelist <==> (after.rows[i].id, peer) in before.whitelist)
  {
  }

  lemma ExportedWhitelist(t: LocalTree, s: PublicTree, e: PublicEdge)
    requires Ordered(t.rows) && NamesDiffer(t.rows) && RowNames(t.rows) == Names(s.nodes)
    requires WhitelistExact(FreshTree(s.name), t, s) && AllEndsOk(s.whitelist, Names(s.nodes))
    ensures ExportsWhitelist(t, e) <==> e in s.whitelist
  {
    if e in s.whitelist {
      assert EndsOk(e, Names(s.nodes));
      var i :| 0 <= i < |t.rows| && t.rows[i].name == e.source;
      assert e == PublicEdge(t.rows[i].name, e.target);
      assert (t.rows[i].id, e.target) in t.whitelist;
      assert ExportsWhitelist(t, e);
    }
    if ExportsWhitelist(t, e) {
      var i :| 0 <= i < |t.rows| && t.rows[i].name == e.source && (t.rows[i].id, e.target) in t.whitelist;
      assert e == PublicEdge(t.rows[i].name, e.target);
      WhitelistAt(FreshTree(s.name), t, s, i, e.target);
    }
  }

  lemma ExportedLink(t: LocalTree, s: PublicTree, e: PublicEdge)
    requires Ordered(t.rows) && NamesDiffer(t.rows) && RowNames(t.rows) == Names(s.nodes)
    requires LinksExact(t, s) && LinksAscend(t.links) && AllEndsOk(s.links, Names(s.nodes))
    ensures ExportsLink(t, e) || ExportsLink(t, e.Flipped()) <==> e in s.links || e.Flipped() in s.links
  {
    if e in s.links || e.Flipped() in s.links {
      assert e.Within(Names(s.nodes)) by {
        assert EndsOk(if e in s.links then e else e.Flipped(), Names(s.nodes));
      }
      var i :| 0 <= i < |t.rows| && t.rows[i].name == e.source;
      var j :| 0 <= j < |t.rows| && t.rows[j].name == e.target;
      assert Pair(t.rows[i].id, t.rows[j].id) in t.links;
    }
    if ExportsLink(t, e) {
      ExportedLinkIs(t, s, e);
    }
    if ExportsLink(t, e.Flipped()) {
      ExportedLinkIs(t, s, e.Flipped());
    }
  }

  lemma ExportedLinkIs(t: LocalTree, s: PublicTree, e: PublicEdge)
    requires LinksExact(t, s) && LinksAscend(t.links) && ExportsLink(t, e)
    ensures e in s.links || e.Flipped() in s.links
  {
    var i, j :| 0 <= i < |t.rows| && 0 <= j < |t.rows| && t.rows[i].name == e.source && t.rows[j].name == e.target
      && (t.rows[i].id, t.rows[j].id) in t.links;
    assert Pair(t.rows[i].id, t.rows[j].id) == (t.rows[i].id, t.rows[j].id);
  }

  lemma FreshRows(enc: Encoding, keys: seq<HardwareKey>, nextId: int, s: PublicTree)
    requires ParentsListed(s.nodes) && s.nodes != [] && NodesOk(s.nodes)
    requires ApplyTo(enc, FreshTree(s.name), keys, nextId, s).Ok?
    ensures var r := ApplyTo(enc, FreshTree(s.name), keys, nextId, s).value;
      RowsOk(r.1) && LinksAscend(r.0.links) && (RowNames(r.1.rows) == Names(s.nodes) ==> r.0.rows == r.1.rows)
  {
    var r := ApplyTo(enc, FreshTree(s.name), keys, nextId, s).value;
    var t := FreshTree(s.name).(rows := r.1.rows);
    DistinctUnlessRepeated(s.nodes);
    ApplyNodesFacts(enc, Work([], keys, nextId), s.nodes);
    PlacedRooted(enc, r.1, s.nodes);
    ReconcileRows(t, s);
    var d := DropEdges(DropRows(t, Names(s.nodes)));
    DropRowsFacts(t, Names(s.nodes));
    NameIn(s.nodes, s.nodes[0]);
    assert s.nodes[0].name in RowNames(d.rows);
    AllowAllAt(d, s.whitelist, 0, "");
    LinkAllAscends(AllowAll(d, s.whitelist).value, s.links);
    if RowNames(r.1.rows) == Names(s.nodes) {
      NothingDropped(t, Names(s.nodes));
    }
  }

  lemma EdgesComeBack(enc: Encoding, t: LocalTree, keys: seq<HardwareKey>, s: PublicTree, p: PublicTree)
    requires Ordered(t.rows) && NamesDiffer(t.rows) && RowNames(t.rows) == Names(s.nodes) && EdgesOk(s)
    requires WhitelistExact(FreshTree(s.name), t, s) && LinksExact(t, s) && LinksAscend(t.links)
    requires IsExport(enc, t, keys, p)
    ensures multiset(p.whitelist) == multiset(s.whitelist) && Distinct(p.links)
    ensures forall e :: e in p.links || e.Flipped() in p.links <==> e in s.links || e.Flipped() in s.links
  {
    AscendDistinct(p.whitelist);
    AscendDistinct(p.links);
    forall e ensures e in p.whitelist <==> e in s.whitelist {
      ExportedWhitelist(t, s, e);
    }
    SameUpToOrder(p.whitelist, s.whitelist);
    forall e ensures e in p.links || e.Flipped() in p.links <==> e in s.links || e.Flipped() in s.links {
      ExportedLink(t, s, e);
    }
  }

  /** The relay's tree, or any slice of it, applied to an empty tree of a personal store and exported
  again is the same tree, up to the order of its lists, the direction links are written in and the
  spelling of keys. */
  lemma ApplyThenExport(enc: Encoding, keys: seq<HardwareKey>, nextId: int, s: PublicTree, p: PublicTree)
    requires EncodingLaws(enc) && ValidTree(s) && ApplyTo(enc, FreshTree(s.name), keys, nextId, s).Ok?
    requires var r := ApplyTo(enc, FreshTree(s.name), keys, nextId, s).value; IsExport(enc, r.0, r.1.keys, p)
    ensures SameTree(p, RespelledTree(enc, s))
  {
    var root: nat :| ValidWithRoot(s, root);
    var r := ApplyTo(enc, FreshTree(s.name), keys, nextId, s).value;
    FreshExact(enc, keys, nextId, s, root, r.0, r.1);
    NodesComeBack(enc, r.1, r.0, s);
    EdgesComeBack(enc, r.0, r.1.keys, s, p);
  }

  lemma FreshExact(enc: Encoding, keys: seq<HardwareKey>, nextId: int, s: PublicTree, root: nat, t: LocalTree, w: Work)
    requires EncodingLaws(enc) && ValidWithRoot(s, root)
    requires ApplyTo(enc, FreshTree(s.name), keys, nextId, s) == Ok((t, w))
    ensures t.rows == w.rows && RowsOk(w) && LinksAscend(t.links) && RowNames(w.rows) == Names(s.nodes)
    ensures WhitelistExact(FreshTree(s.name), t, s) && LinksExact(t, s)
    ensures forall n :: n in s.nodes ==> Placed(enc, w, n)
    ensures t.name == s.name && t.generation == s.generation
  {
    ApplyIsExact(enc, FreshTree(s.name), keys, nextId, s);
    NodesApply(enc, Work([], keys, nextId), s, root);
    FreshRows(enc, keys, nextId, s);
  }

  /** A slice of a valid tree whose keys fit is a valid tree whose keys fit. */
  lemma {:induction false} SlicesApply(enc: Encoding, keys: seq<HardwareKey>, full: PublicTree, fingerprint: string,
                                       slice: PublicTree)
    requires ValidTree(full) && Seeds(full.nodes, fingerprint) != [] && IsSlice(full, fingerprint, slice)
    requires AllFit(enc, keys, full.nodes)
    ensures ValidTree(slice) && AllFit(enc, keys, slice.nodes) && slice.generation == full.generation
  {
    SliceIsValid(full, fingerprint, slice);
    var visible :| Visibility.IsVisible(ParentMap(full.nodes), full.links, Seeds(full.nodes, fingerprint), visible)
      && slice == FilterTree(full, visible);
    KeepMembers(full.nodes, NodeIn(visible));
  }
}
