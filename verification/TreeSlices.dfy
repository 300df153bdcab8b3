/** The slice of a stored tree for one fingerprint (`src/relay/org_tree.rs`,
`filter_public_tree` in `src/key_tree.rs`). */
module TreeSlices {
  import opened Errors
  import opened Lists
  import opened PublicTrees
  import opened OrgTree
  import opened TreeMerge
  import opened Visibility

  // ----- the maps a visibility walk needs

  function AddChild(children: Children, n: PublicNode): Children {
    match n.parent
    case None => children
    case Some(p) => children[p := (if p in children then children[p] else []) + [n.name]]
  }

  function ChildrenMap(nodes: seq<PublicNode>): Children {
    if nodes == [] then map[]
    else AddChild(ChildrenMap(nodes[..|nodes| - 1]), nodes[|nodes| - 1])
  }

  predicate NodeWith(nodes: seq<PublicNode>, c: string, p: string) {
    exists i :: 0 <= i < |nodes| && nodes[i].name == c && nodes[i].parent == Some(p)
  }

  lemma {:induction false} ListsChildMeaning(nodes: seq<PublicNode>, p: string, c: string)
    ensures ListsChild(ChildrenMap(nodes), p, c) <==> NodeWith(nodes, c, p)
  {
    if nodes != [] {
      var before, n := nodes[..|nodes| - 1], nodes[|nodes| - 1];
      ListsChildMeaning(before, p, c);
      assert NodeWith(nodes, c, p) <==> NodeWith(before, c, p) || (n.name == c && n.parent == Some(p));
    }
  }

  lemma {:induction false} ChildMeaning(nodes: seq<PublicNode>, p: string, c: string)
    requires DistinctNames(nodes)
    ensures Child(ParentMap(nodes), p, c) <==> NodeWith(nodes, c, p)
  {
    if Child(ParentMap(nodes), p, c) {
      var i := InParentMap(nodes, c);
    }
    if i :| 0 <= i < |nodes| && nodes[i].name == c && nodes[i].parent == Some(p) {
      ParentMapAt(nodes, i);
    }
  }

  lemma {:induction false} MapsMirror(nodes: seq<PublicNode>)
    requires DistinctNames(nodes)
    ensures Mirrors(ChildrenMap(nodes), ParentMap(nodes))
  {
    forall p, c ensures ListsChild(ChildrenMap(nodes), p, c) <==> Child(ParentMap(nodes), p, c) {
      ListsChildMeaning(nodes, p, c);
      ChildMeaning(nodes, p, c);
    }
  }

  /** `visible_labels_in_public_tree` */
  method VisibleInPublicTree(full: PublicTree, seeds: seq<string>) returns (visible: set<string>)
    requires DistinctNames(full.nodes)
    ensures IsVisible(ParentMap(full.nodes), full.links, seeds, visible)
  {
    var parentOf: Parents := map[];
    var childrenOf: Children := map[];
    for i := 0 to |full.nodes|
      invariant parentOf == ParentMap(full.nodes[..i]) && childrenOf == ChildrenMap(full.nodes[..i])
    {
      var node := full.nodes[i];
      assert full.nodes[..i + 1][..i] == full.nodes[..i];
      parentOf := parentOf[node.name := node.parent];
      if node.parent.Some? {
        var parent := node.parent.value;
        var siblings := if parent in childrenOf then childrenOf[parent] else [];
        childrenOf := childrenOf[parent := siblings + [node.name]];
      }
    }
    assert full.nodes[..|full.nodes|] == full.nodes;
    MapsMirror(full.nodes);
    visible := VisibleFromMaps(parentOf, childrenOf, full.links, seeds);
  }

  // ----- slices

  function NodeIn(visible: set<string>): PublicNode -> bool {
    (n: PublicNode) => n.name in visible
  }

  function EdgeIn(visible: set<string>): PublicEdge -> bool {
    (e: PublicEdge) => e.Within(visible)
  }

  /** `filter_public_tree` */
  function FilterTree(full: PublicTree, visible: set<string>): PublicTree {
    PublicTree(full.name, full.generation, Keep(full.nodes, NodeIn(visible)), Keep(full.whitelist, EdgeIn(visible)),
               Keep(full.links, EdgeIn(visible)))
  }

  /** The labels bound to a fingerprint, in node order. */
  function Seeds(nodes: seq<PublicNode>, fingerprint: string): seq<string> {
    if nodes == [] then []
    else (if nodes[0].fingerprint == Some(fingerprint) then [nodes[0].name] else []) + Seeds(nodes[1..], fingerprint)
  }

  lemma {:induction false} SeedsAreNames(nodes: seq<PublicNode>, fingerprint: string)
    ensures forall s :: s in Seeds(nodes, fingerprint) <==>
      exists i :: 0 <= i < |nodes| && nodes[i].name == s && nodes[i].fingerprint == Some(fingerprint)
  {
    if nodes != [] {
      SeedsAreNames(nodes[1..], fingerprint);
      assert nodes == [nodes[0]] + nodes[1..];
    }
  }

  ghost predicate IsSlice(full: PublicTree, fingerprint: string, slice: PublicTree) {
    exists visible ::
      IsVisible(ParentMap(full.nodes), full.links, Seeds(full.nodes, fingerprint), visible)
      && slice == FilterTree(full, visible)
  }

  /** `slice_for_fingerprint` */
  method SliceForFingerprint(full: PublicTree, fingerprint: string) returns (slice: Option<PublicTree>)
    requires DistinctNames(full.nodes)
    ensures slice.None? <==> Seeds(full.nodes, fingerprint) == []
    ensures slice.Some? ==> IsSlice(full, fingerprint, slice.value)
  {
    var seeds: seq<string> := [];
    var i := 0;
    while i < |full.nodes|
      invariant 0 <= i <= |full.nodes|
      invariant Seeds(full.nodes, fingerprint) == seeds + Seeds(full.nodes[i..], fingerprint)
    {
      assert full.nodes[i..][1..] == full.nodes[i + 1..];
      if full.nodes[i].fingerprint == Some(fingerprint) {
        seeds := seeds + [full.nodes[i].name];
      }
      i := i + 1;
    }
    assert full.nodes[i..] == [] && seeds == Seeds(full.nodes, fingerprint);
    if seeds == [] {
      return None;
    }
    var visible := VisibleInPublicTree(full, seeds);
    return Some(FilterTree(full, visible));
  }

  // ----- a slice is a valid tree

  /** What slicing needs to know about the visible labels. */
  ghost predicate Sliceable(full: PublicTree, r: nat, visible: set<string>) {
    ValidWithRoot(full, r) && ClosedUp(ParentMap(full.nodes), visible) && full.nodes[r].name in visible
  }

  lemma {:induction false} VisibleIsSliceable(full: PublicTree, r: nat, fingerprint: string, visible: set<string>)
    requires ValidWithRoot(full, r) && Seeds(full.nodes, fingerprint) != []
    requires IsVisible(ParentMap(full.nodes), full.links, Seeds(full.nodes, fingerprint), visible)
    ensures Sliceable(full, r, visible)
  {
    var m, seeds := ParentMap(full.nodes), Seeds(full.nodes, fingerprint);
    VisibleClosedUp(m, full.links, seeds, visible);
    SeedsAreNames(full.nodes, fingerprint);
    assert seeds[0] in seeds;
    var i :| 0 <= i < |full.nodes| && full.nodes[i].name == seeds[0];
    assert full.nodes[i].name in m;
    ClosedUpReaches(m, visible, seeds[0], full.nodes[r].name);
  }

  lemma SliceNames(full: PublicTree, visible: set<string>)
    ensures Names(FilterTree(full, visible).nodes) == Names(full.nodes) * visible
  {
    var kept := FilterTree(full, visible).nodes;
    KeepMembers(full.nodes, NodeIn(visible));
    forall x | x in Names(kept) ensures x in Names(full.nodes) && x in visible {
      var n := NameOf(kept, x);
      NameIn(full.nodes, n);
    }
    forall x | x in Names(full.nodes) && x in visible ensures x in Names(kept) {
      var n := NameOf(full.nodes, x);
      NameIn(kept, n);
    }
  }

  lemma SliceParents(full: PublicTree, r: nat, visible: set<string>)
    requires Sliceable(full, r, visible)
    ensures ParentsListed(FilterTree(full, visible).nodes)
    ensures forall x :: x in ParentMap(FilterTree(full, visible).nodes) ==>
      x in ParentMap(full.nodes) && ParentMap(FilterTree(full, visible).nodes)[x] == ParentMap(full.nodes)[x]
  {
    var kept := FilterTree(full, visible).nodes;
    KeepMembers(full.nodes, NodeIn(visible));
    KeepNodes(full.nodes, NodeIn(visible));
    SliceNames(full, visible);
    forall x | x in ParentMap(kept)
      ensures x in ParentMap(full.nodes) && ParentMap(kept)[x] == ParentMap(full.nodes)[x]
    {
      var i := InParentMap(kept, x);
      assert kept[i] in kept;
      ParentMapOf(full.nodes, kept[i]);
    }
    forall i | 0 <= i < |kept| ensures ParentListed(kept[i], Names(kept)) {
      assert kept[i] in kept;
      ParentMapOf(full.nodes, kept[i]);
      var k :| 0 <= k < |full.nodes| && full.nodes[k] == kept[i];
      assert ParentListed(full.nodes[k], Names(full.nodes));
    }
  }

  lemma SliceEdges(full: PublicTree, visible: set<string>)
    requires EdgesOk(full)
    ensures EdgesOk(FilterTree(full, visible))
  {
    var slice := FilterTree(full, visible);
    SliceNames(full, visible);
    KeepMembers(full.whitelist, EdgeIn(visible));
    KeepMembers(full.links, EdgeIn(visible));
    KeepDistinct(full.whitelist, EdgeIn(visible));
    KeepDistinct(full.links, EdgeIn(visible));
    forall e | e in slice.links ensures Whitelisted(e, slice.whitelist) {
      assert Whitelisted(e, full.whitelist);
    }
  }

  lemma SliceRoot(full: PublicTree, r: nat, visible: set<string>) returns (k: nat)
    requires Sliceable(full, r, visible)
    ensures RootAt(FilterTree(full, visible).nodes, k)
    ensures FilterTree(full, visible).nodes[k] == full.nodes[r]
  {
    var kept := FilterTree(full, visible).nodes;
    KeepMembers(full.nodes, NodeIn(visible));
    KeepNodes(full.nodes, NodeIn(visible));
    assert full.nodes[r] in kept;
    k :| 0 <= k < |kept| && kept[k] == full.nodes[r];
    forall i | 0 <= i < |kept| ensures kept[i].parent.None? <==> i == k {
      assert kept[i] in kept;
      var j :| 0 <= j < |full.nodes| && full.nodes[j] == kept[i];
    }
  }

  lemma SliceValid(full: PublicTree, r: nat, visible: set<string>) returns (k: nat)
    requires Sliceable(full, r, visible)
    ensures ValidWithRoot(FilterTree(full, visible), k)
    ensures FilterTree(full, visible).nodes[k] == full.nodes[r]
  {
    k := SliceRoot(full, r, visible);
    KeepNodes(full.nodes, NodeIn(visible));
    SliceParents(full, r, visible);
    SliceEdges(full, visible);
    ValidIsAcyclic(full, r);
    var rank :| Ranked(ParentMap(full.nodes), rank);
    ValidByRank(FilterTree(full, visible), k, rank);
  }

  /** Every slice of a valid tree is a valid tree with the same root, holding with each label all its
  ancestors. */
  lemma {:induction false} SliceIsValid(full: PublicTree, fingerprint: string, slice: PublicTree)
    requires ValidTree(full) && Seeds(full.nodes, fingerprint) != [] && IsSlice(full, fingerprint, slice)
    ensures ValidTree(slice) && RootName(slice.nodes) == RootName(full.nodes)
    ensures forall x, y :: x in Names(slice.nodes) && Reaches(ParentMap(full.nodes), x, y) ==> y in Names(slice.nodes)
  {
    var r: nat :| ValidWithRoot(full, r);
    var visible :| IsVisible(ParentMap(full.nodes), full.links, Seeds(full.nodes, fingerprint), visible)
      && slice == FilterTree(full, visible);
    VisibleIsSliceable(full, r, fingerprint, visible);
    var k := SliceValid(full, r, visible);
    RootNameMeaning(full.nodes, r);
    RootNameMeaning(slice.nodes, k);
    SliceNames(full, visible);
    ValidIsAcyclic(full, r);
    forall x, y | x in Names(slice.nodes) && Reaches(ParentMap(full.nodes), x, y) ensures y in Names(slice.nodes) {
      ClosedUpReaches(ParentMap(full.nodes), Names(full.nodes) * visible, x, y);
    }
  }

  // ----- merging a slice back

  lemma {:induction false} MergeKeepsDistinct(kept: seq<PublicEdge>, edges: seq<PublicEdge>, mentioned: set<string>,
                                              p: PublicEdge -> bool)
    requires Distinct(edges) && forall e :: e in edges ==> (p(e) <==> !e.Within(mentioned))
    requires forall e :: e in edges && p(e) ==> e !in kept
    ensures MergeEdges(kept, edges, mentioned) == kept + Keep(edges, p)
    decreases edges
  {
    if edges == [] {
      assert kept + Keep(edges, p) == kept;
    } else {
      var e, rest := edges[0], edges[1..];
      assert e in edges && e !in rest;
      var next := if p(e) then kept + [e] else kept;
      MergeKeepsDistinct(next, rest, mentioned, p);
      if p(e) {
        Assoc(kept, [e], Keep(rest, p));
      } else {
        assert Keep(edges, p) == Keep(rest, p);
      }
    }
  }

  lemma {:induction false} EdgesComeBack(edges: seq<PublicEdge>, names: set<string>, visible: set<string>)
    requires Distinct(edges) && forall e :: e in edges ==> e.Within(names)
    ensures multiset(MergeEdges(Keep(edges, EdgeIn(visible)), edges, names * visible)) == multiset(edges)
  {
    var p := (e: PublicEdge) => !e.Within(visible);
    KeepMembers(edges, EdgeIn(visible));
    MergeKeepsDistinct(Keep(edges, EdgeIn(visible)), edges, names * visible, p);
    KeepPartition(edges, EdgeIn(visible), p);
  }

  lemma NodesComeBack(full: PublicTree, visible: set<string>)
    ensures multiset(Merged(full, FilterTree(full, visible)).nodes) == multiset(full.nodes)
  {
    SliceNames(full, visible);
    var kept := FilterTree(full, visible).nodes;
    forall n | n in full.nodes ensures Unmentioned(Names(kept))(n) <==> !NodeIn(visible)(n) {
      NameIn(full.nodes, n);
    }
    KeepPartition(full.nodes, NodeIn(visible), Unmentioned(Names(kept)));
  }

  /** Merging a slice back into its tree succeeds and changes nothing but the order. */
  lemma {:induction false} SliceMergesBack(full: PublicTree, fingerprint: string, slice: PublicTree)
    requires ValidTree(full) && Seeds(full.nodes, fingerprint) != [] && IsSlice(full, fingerprint, slice)
    ensures ValidTree(Merged(full, slice))
    ensures Merged(full, slice).name == full.name && Merged(full, slice).generation == full.generation
    ensures multiset(Merged(full, slice).nodes) == multiset(full.nodes)
    ensures multiset(Merged(full, slice).whitelist) == multiset(full.whitelist)
    ensures multiset(Merged(full, slice).links) == multiset(full.links)
  {
    SliceIsValid(full, fingerprint, slice);
    MergeExact(full, slice);
    var r: nat :| ValidWithRoot(full, r);
    var k: nat :| ValidWithRoot(slice, k);
    RootNameMeaning(slice.nodes, k);
    NameIn(slice.nodes, slice.nodes[k]);
    var visible :| IsVisible(ParentMap(full.nodes), full.links, Seeds(full.nodes, fingerprint), visible)
      && slice == FilterTree(full, visible);
    NodesComeBack(full, visible);
    SliceNames(full, visible);
    EdgesComeBack(full.whitelist, Names(full.nodes), visible);
    EdgesComeBack(full.links, Names(full.nodes), visible);
  }
}
