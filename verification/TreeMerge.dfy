/** Merging a public tree into a stored one, and the relay's document store
(`src/relay/org_tree.rs`). */
module TreeMerge {
  import opened Errors
  import opened Lists
  import opened PublicTrees
  import opened OrgTree

  /** Existing edges join the kept ones unless both ends are mentioned or they are there already. */
  function MergeEdges(kept: seq<PublicEdge>, edges: seq<PublicEdge>, mentioned: set<string>): seq<PublicEdge>
    decreases edges
  {
    if edges == [] then kept
    else if edges[0].Within(mentioned) || edges[0] in kept then MergeEdges(kept, edges[1..], mentioned)
    else MergeEdges(kept + [edges[0]], edges[1..], mentioned)
  }

  function Unmentioned(names: set<string>): PublicNode -> bool {
    (n: PublicNode) => n.name !in names
  }

  /** The document `merge_into_existing` builds before it validates it. */
  function Merged(existing: PublicTree, incoming: PublicTree): PublicTree {
    var names := Names(incoming.nodes);
    PublicTree(incoming.name, existing.generation,
               incoming.nodes + Keep(existing.nodes, Unmentioned(names)),
               MergeEdges(incoming.whitelist, existing.whitelist, names),
               MergeEdges(incoming.links, existing.links, names))
  }

  method MergeEdgeList(incoming: seq<PublicEdge>, existing: seq<PublicEdge>, mentioned: set<string>)
    returns (edges: seq<PublicEdge>)
    ensures edges == MergeEdges(incoming, existing, mentioned)
  {
    edges := incoming;
    var i := 0;
    while i < |existing|
      invariant 0 <= i <= |existing|
      invariant MergeEdges(incoming, existing, mentioned) == MergeEdges(edges, existing[i..], mentioned)
    {
      var edge := existing[i];
      assert existing[i..][0] == edge && existing[i..][1..] == existing[i + 1..];
      i := i + 1;
      if edge.source in mentioned && edge.target in mentioned {
        continue;
      }
      if edge !in edges {
        edges := edges + [edge];
      }
    }
  }

  ghost function Checked(t: PublicTree): Result<PublicTree> {
    match Verdict(t)
    case Ok(_) => Ok(t)
    case Err(e) => Err(e)
  }

  /** `merge_into_existing` */
  method MergeIntoExisting(existing: PublicTree, incoming: PublicTree) returns (r: Result<PublicTree>)
    ensures r == Checked(Merged(existing, incoming))
    ensures r.Ok? <==> ValidTree(Merged(existing, incoming))
  {
    var incomingNames := Names(incoming.nodes);
    var nodes := incoming.nodes;
    for i := 0 to |existing.nodes|
      invariant nodes == incoming.nodes + Keep(existing.nodes[..i], Unmentioned(incomingNames))
    {
      assert existing.nodes[..i + 1] == existing.nodes[..i] + [existing.nodes[i]];
      KeepLast(existing.nodes[..i], existing.nodes[i], Unmentioned(incomingNames));
      if existing.nodes[i].name !in incomingNames {
        nodes := nodes + [existing.nodes[i]];
      }
    }
    assert existing.nodes[..|existing.nodes|] == existing.nodes;
    var whitelist := MergeEdgeList(incoming.whitelist, existing.whitelist, incomingNames);
    var links := MergeEdgeList(incoming.links, existing.links, incomingNames);
    var merged := PublicTree(incoming.name, existing.generation, nodes, whitelist, links);
    var _ :- ValidatePublicTree(merged);
    return Ok(merged);
  }

  // ----- what a merge keeps

  lemma {:induction false} MergeEdgesMembers(kept: seq<PublicEdge>, edges: seq<PublicEdge>, mentioned: set<string>)
    ensures forall e :: e in MergeEdges(kept, edges, mentioned) <==> e in kept || (e in edges && !e.Within(mentioned))
    decreases edges
  {
    if edges != [] {
      MergeEdgesMembers(if edges[0].Within(mentioned) || edges[0] in kept then kept else kept + [edges[0]],
                        edges[1..], mentioned);
    }
  }

  lemma {:induction false} MergeEdgesDistinct(kept: seq<PublicEdge>, edges: seq<PublicEdge>, mentioned: set<string>)
    requires Distinct(kept)
    ensures Distinct(MergeEdges(kept, edges, mentioned))
    decreases edges
  {
    if edges != [] {
      MergeEdgesDistinct(if edges[0].Within(mentioned) || edges[0] in kept then kept else kept + [edges[0]],
                         edges[1..], mentioned);
    }
  }

  /** A merge holds the incoming nodes and edges, and of the existing ones exactly the nodes the
  sender does not mention and the edges with an end it does not mention. */
  lemma MergeKeeps(existing: PublicTree, incoming: PublicTree)
    ensures Merged(existing, incoming).name == incoming.name && Merged(existing, incoming).generation == existing.generation
    ensures forall n :: n in Merged(existing, incoming).nodes <==>
      n in incoming.nodes || (n in existing.nodes && n.name !in Names(incoming.nodes))
    ensures forall e :: e in Merged(existing, incoming).whitelist <==>
      e in incoming.whitelist || (e in existing.whitelist && !e.Within(Names(incoming.nodes)))
    ensures forall e :: e in Merged(existing, incoming).links <==>
      e in incoming.links || (e in existing.links && !e.Within(Names(incoming.nodes)))
  {
    var names := Names(incoming.nodes);
    KeepMembers(existing.nodes, Unmentioned(names));
    MergeEdgesMembers(incoming.whitelist, existing.whitelist, names);
    MergeEdgesMembers(incoming.links, existing.links, names);
  }

  // ----- valid trees by rank

  lemma InParentMap(nodes: seq<PublicNode>, x: string) returns (i: nat)
    requires DistinctNames(nodes) && x in ParentMap(nodes)
    ensures i < |nodes| && nodes[i].name == x && ParentMap(nodes)[x] == nodes[i].parent
  {
    i :| 0 <= i < |nodes| && nodes[i].name == x;
    ParentMapAt(nodes, i);
  }

  ghost predicate Grounded(m: Parents, root: string) {
    && (forall x :: x in m && m[x].Some? ==> m[x].value in m)
    && (forall x :: x in m && m[x].None? ==> x == root)
    && root in m && m[root].None?
  }

  lemma {:induction false} GroundedParents(nodes: seq<PublicNode>, r: nat)
    requires DistinctNames(nodes) && RootAt(nodes, r) && ParentsListed(nodes)
    ensures Grounded(ParentMap(nodes), nodes[r].name)
  {
    var m := ParentMap(nodes);
    ParentMapAt(nodes, r);
    forall x | x in m ensures m[x].Some? ==> m[x].value in m
      ensures m[x].None? ==> x == nodes[r].name
    {
      var i := InParentMap(nodes, x);
      assert ParentListed(nodes[i], Names(nodes));
    }
  }

  lemma ValidIsAcyclic(t: PublicTree, r: nat)
    requires ValidWithRoot(t, r)
    ensures Grounded(ParentMap(t.nodes), t.nodes[r].name) && Acyclic(ParentMap(t.nodes))
  {
    var m := ParentMap(t.nodes);
    GroundedParents(t.nodes, r);
    forall x | x in m ensures Reaches(m, x, t.nodes[r].name) {
      var i := InParentMap(t.nodes, x);
    }
    ReachingRootIsAcyclic(m, t.nodes[r].name);
  }

  lemma ValidByRank(t: PublicTree, r: nat, rank: string -> nat)
    requires t.name != "" && NodesOk(t.nodes) && RootAt(t.nodes, r) && ParentsListed(t.nodes) && EdgesOk(t)
    requires Ranked(ParentMap(t.nodes), rank)
    ensures ValidWithRoot(t, r)
  {
    GroundedParents(t.nodes, r);
    forall i | 0 <= i < |t.nodes| ensures Reaches(ParentMap(t.nodes), t.nodes[i].name, t.nodes[r].name) {
      ParentMapAt(t.nodes, i);
      AcyclicReachesRoot(ParentMap(t.nodes), rank, t.nodes[r].name, t.nodes[i].name);
    }
  }

  // ----- when a merge succeeds

  lemma {:induction false} KeepNodes(nodes: seq<PublicNode>, p: PublicNode -> bool)
    requires NodesOk(nodes)
    ensures NodesOk(Keep(nodes, p))
  {
    if nodes != [] {
      var n, rest := nodes[0], nodes[1..];
      assert forall i :: 0 <= i < |rest| ==> rest[i] == nodes[i + 1];
      KeepNodes(rest, p);
      KeepMembers(rest, p);
      forall j | 0 <= j < |Keep(rest, p)| ensures Keep(rest, p)[j].name != n.name {
        assert Keep(rest, p)[j] in rest;
      }
    }
  }

  lemma NodesOkAppend(a: seq<PublicNode>, b: seq<PublicNode>)
    requires NodesOk(a) && NodesOk(b) && forall j :: 0 <= j < |b| ==> b[j].name !in Names(a)
    ensures NodesOk(a + b)
  {
    forall i, j | 0 <= i < j < |a + b| ensures (a + b)[i].name != (a + b)[j].name {
      if i < |a| <= j {
        assert b[j - |a|].name !in Names(a);
      }
    }
  }

  lemma NameOf(nodes: seq<PublicNode>, x: string) returns (n: PublicNode)
    requires x in Names(nodes)
    ensures n in nodes && n.name == x
  {
    var i :| 0 <= i < |nodes| && nodes[i].name == x;
    n := nodes[i];
  }

  lemma NameIn(nodes: seq<PublicNode>, n: PublicNode)
    requires n in nodes
    ensures n.name in Names(nodes)
  {
    var i :| 0 <= i < |nodes| && nodes[i] == n;
    assert nodes[i].name in Names(nodes);
  }

  lemma MergedNames(all: seq<PublicNode>, existing: seq<PublicNode>, incoming: seq<PublicNode>)
    requires forall n :: n in all <==> n in incoming || (n in existing && n.name !in Names(incoming))
    ensures Names(all) == Names(existing) + Names(incoming)
  {
    forall x | x in Names(all) ensures x in Names(existing) + Names(incoming) {
      var n := NameOf(all, x);
      NameIn(if n in incoming then incoming else existing, n);
    }
    forall x | x in Names(existing) + Names(incoming) ensures x in Names(all) {
      var n := NameOf(if x in Names(incoming) then incoming else existing, x);
      NameIn(all, n);
    }
  }

  lemma MergedNodesOk(existing: PublicTree, incoming: PublicTree)
    requires NodesOk(existing.nodes) && NodesOk(incoming.nodes)
    ensures NodesOk(Merged(existing, incoming).nodes)
    ensures Names(Merged(existing, incoming).nodes) == Names(existing.nodes) + Names(incoming.nodes)
  {
    var names := Names(incoming.nodes);
    var kept := Keep(existing.nodes, Unmentioned(names));
    KeepMembers(existing.nodes, Unmentioned(names));
    KeepNodes(existing.nodes, Unmentioned(names));
    forall j | 0 <= j < |kept| ensures kept[j].name !in names {
      assert kept[j] in kept;
    }
    NodesOkAppend(incoming.nodes, kept);
    MergeKeeps(existing, incoming);
    MergedNames(Merged(existing, incoming).nodes, existing.nodes, incoming.nodes);
  }

  lemma {:induction false} ParentMapOf(nodes: seq<PublicNode>, n: PublicNode)
    requires DistinctNames(nodes) && n in nodes
    ensures n.name in ParentMap(nodes) && ParentMap(nodes)[n.name] == n.parent
  {
    var i :| 0 <= i < |nodes| && nodes[i] == n;
    ParentMapAt(nodes, i);
  }

  /** A mentioned node has the incoming parent, an unmentioned one the existing parent. */
  lemma {:induction false} MergedParents(all: seq<PublicNode>, existing: seq<PublicNode>, incoming: seq<PublicNode>, x: string)
    requires NodesOk(existing) && NodesOk(incoming) && NodesOk(all)
    requires forall n :: n in all <==> n in incoming || (n in existing && n.name !in Names(incoming))
    requires x in ParentMap(all)
    ensures x in ParentMap(incoming) ==> ParentMap(all)[x] == ParentMap(incoming)[x]
    ensures x !in ParentMap(incoming) ==> x in ParentMap(existing) && ParentMap(all)[x] == ParentMap(existing)[x]
  {
    if x in ParentMap(incoming) {
      var i := InParentMap(incoming, x);
      ParentMapOf(all, incoming[i]);
    } else {
      var k := InParentMap(all, x);
      assert all[k] !in incoming;
      ParentMapOf(existing, all[k]);
    }
  }

  /** Mentioned labels rank as in the incoming tree, all others above them as in the existing one. */
  lemma MergedRanked(existing: PublicTree, incoming: PublicTree, re: string -> nat, ri: string -> nat)
    returns (rank: string -> nat)
    requires NodesOk(existing.nodes) && NodesOk(incoming.nodes)
    requires forall x :: x in ParentMap(incoming.nodes) && ParentMap(incoming.nodes)[x].Some? ==>
      ParentMap(incoming.nodes)[x].value in ParentMap(incoming.nodes)
    requires Ranked(ParentMap(existing.nodes), re) && Ranked(ParentMap(incoming.nodes), ri)
    ensures Ranked(ParentMap(Merged(existing, incoming).nodes), rank)
  {
    var names := Names(incoming.nodes);
    var top := MaxRank(ri, names);
    rank := (x: string) => if x in names then ri(x) else top + re(x);
    var m := ParentMap(Merged(existing, incoming).nodes);
    MergedNodesOk(existing, incoming);
    MergeKeeps(existing, incoming);
    forall x | x in m && m[x].Some? ensures rank(m[x].value) < rank(x) {
      MergedParents(Merged(existing, incoming).nodes, existing.nodes, incoming.nodes, x);
    }
  }

  lemma MergedEdgesOk(existing: PublicTree, incoming: PublicTree)
    requires EdgesOk(existing) && EdgesOk(incoming) && NodesOk(existing.nodes) && NodesOk(incoming.nodes)
    ensures EdgesOk(Merged(existing, incoming))
  {
    var merged := Merged(existing, incoming);
    var names := Names(incoming.nodes);
    MergeKeeps(existing, incoming);
    MergedNodesOk(existing, incoming);
    MergeEdgesDistinct(incoming.whitelist, existing.whitelist, names);
    MergeEdgesDistinct(incoming.links, existing.links, names);
    forall e | e in merged.links ensures Whitelisted(e, merged.whitelist) {
      if e in incoming.links {
        assert Whitelisted(e, incoming.whitelist);
      } else {
        assert Whitelisted(e, existing.whitelist) && !e.Within(names) && !e.Flipped().Within(names);
      }
    }
  }

  lemma MergedRootAt(existing: PublicTree, incoming: PublicTree, re: nat, ri: nat)
    requires NodesOk(existing.nodes) && RootAt(existing.nodes, re) && RootAt(incoming.nodes, ri)
    ensures RootAt(Merged(existing, incoming).nodes, ri) <==> existing.nodes[re].name in Names(incoming.nodes)
  {
    var names := Names(incoming.nodes);
    var all := Merged(existing, incoming).nodes;
    var kept := Keep(existing.nodes, Unmentioned(names));
    KeepMembers(existing.nodes, Unmentioned(names));
    if existing.nodes[re].name in names {
      forall k | 0 <= k < |all| ensures all[k].parent.None? <==> k == ri {
        if k >= |incoming.nodes| {
          assert kept[k - |incoming.nodes|] in kept;
          var i :| 0 <= i < |existing.nodes| && existing.nodes[i] == kept[k - |incoming.nodes|];
        }
      }
    } else {
      assert existing.nodes[re] in kept;
      var j :| 0 <= j < |kept| && kept[j] == existing.nodes[re];
      assert all[|incoming.nodes| + j] == kept[j];
    }
  }

  lemma MergeSucceeds(existing: PublicTree, incoming: PublicTree, re: nat, ri: nat)
    requires ValidWithRoot(existing, re) && ValidWithRoot(incoming, ri)
    requires existing.nodes[re].name in Names(incoming.nodes)
    ensures ValidWithRoot(Merged(existing, incoming), ri)
  {
    var merged := Merged(existing, incoming);
    MergedNodesOk(existing, incoming);
    MergedEdgesOk(existing, incoming);
    MergedRootAt(existing, incoming, re, ri);
    ValidIsAcyclic(existing, re);
    ValidIsAcyclic(incoming, ri);
    var rankE :| Ranked(ParentMap(existing.nodes), rankE);
    var rankI :| Ranked(ParentMap(incoming.nodes), rankI);
    var rank := MergedRanked(existing, incoming, rankE, rankI);
    MergedParentsListed(existing, incoming);
    ValidByRank(merged, ri, rank);
  }

  lemma MergedParentsListed(existing: PublicTree, incoming: PublicTree)
    requires NodesOk(existing.nodes) && NodesOk(incoming.nodes)
    requires ParentsListed(existing.nodes) && ParentsListed(incoming.nodes)
    ensures ParentsListed(Merged(existing, incoming).nodes)
  {
    var all := Merged(existing, incoming).nodes;
    MergedNodesOk(existing, incoming);
    MergeKeeps(existing, incoming);
    forall i | 0 <= i < |all| ensures ParentListed(all[i], Names(all)) {
      assert all[i] in all;
      if all[i] in incoming.nodes {
        assert ParentListed(all[i], Names(incoming.nodes));
      } else {
        assert ParentListed(all[i], Names(existing.nodes));
      }
    }
  }

  lemma OnlyIncomingRoot(existing: PublicTree, incoming: PublicTree, ri: nat)
    requires RootAt(incoming.nodes, ri) && !RootAt(Merged(existing, incoming).nodes, ri)
    ensures forall r: nat :: !RootAt(Merged(existing, incoming).nodes, r)
  {
    var all := Merged(existing, incoming).nodes;
    assert all[ri] == incoming.nodes[ri];
  }

  /** Merging a valid tree into a valid stored one succeeds exactly when the stored root is among
  the labels the sender mentions: no cycle, dangling parent, repetition or unlisted link can arise. */
  lemma MergeExact(existing: PublicTree, incoming: PublicTree)
    requires ValidTree(existing) && ValidTree(incoming)
    ensures RootName(existing.nodes).Some?
    ensures ValidTree(Merged(existing, incoming)) <==> RootName(existing.nodes).value in Names(incoming.nodes)
  {
    var re: nat :| ValidWithRoot(existing, re);
    var ri: nat :| ValidWithRoot(incoming, ri);
    RootNameMeaning(existing.nodes, re);
    MergedRootAt(existing, incoming, re, ri);
    if existing.nodes[re].name in Names(incoming.nodes) {
      MergeSucceeds(existing, incoming, re, ri);
    } else {
      OnlyIncomingRoot(existing, incoming, ri);
    }
  }

  lemma {:induction false} RootCountAppend(a: seq<PublicNode>, b: seq<PublicNode>)
    ensures RootCount(a + b) == RootCount(a) + RootCount(b)
  {
    if a == [] {
      assert a + b == b;
    } else {
      assert (a + b)[1..] == a[1..] + b;
      RootCountAppend(a[1..], b);
    }
  }

  /** A filter that keeps the only root keeps the number of roots. */
  lemma {:induction false} RootCountKept(nodes: seq<PublicNode>, p: PublicNode -> bool)
    requires forall n :: n in nodes && n.parent.None? ==> p(n)
    ensures RootCount(Keep(nodes, p)) == RootCount(nodes)
  {
    if nodes != [] {
      assert nodes[0] in nodes;
      RootCountKept(nodes[1..], p);
      RootCountAppend(if p(nodes[0]) then [nodes[0]] else [], Keep(nodes[1..], p));
    }
  }

  /** A merge that fails would have two roots, and that is all that can go wrong: its nodes, parents and
  edges are in order, and no cycle arises. */
  lemma MergeErrorIsTwoRoots(existing: PublicTree, incoming: PublicTree)
    requires ValidTree(existing) && ValidTree(incoming) && !ValidTree(Merged(existing, incoming))
    ensures Verdict(Merged(existing, incoming)) == Err(InvalidTreeSpec)
    ensures RootCount(Merged(existing, incoming).nodes) == 2
    ensures NodesOk(Merged(existing, incoming).nodes) && ParentsListed(Merged(existing, incoming).nodes)
    ensures EdgesOk(Merged(existing, incoming)) && Acyclic(ParentMap(Merged(existing, incoming).nodes))
  {
    MergedInOrder(existing, incoming);
    TwoRoots(existing, incoming);
    FirstNodeErrorMeaning(Merged(existing, incoming).nodes, {});
  }

  /** Whatever the roots, a merge of valid trees has its nodes, parents and edges in order and no cycle. */
  lemma MergedInOrder(existing: PublicTree, incoming: PublicTree)
    requires ValidTree(existing) && ValidTree(incoming)
    ensures NodesOk(Merged(existing, incoming).nodes) && ParentsListed(Merged(existing, incoming).nodes)
    ensures EdgesOk(Merged(existing, incoming)) && Acyclic(ParentMap(Merged(existing, incoming).nodes))
  {
    var re: nat :| ValidWithRoot(existing, re);
    var ri: nat :| ValidWithRoot(incoming, ri);
    MergedNodesOk(existing, incoming);
    MergedEdgesOk(existing, incoming);
    MergedParentsListed(existing, incoming);
    ValidIsAcyclic(existing, re);
    ValidIsAcyclic(incoming, ri);
    var rankE :| Ranked(ParentMap(existing.nodes), rankE);
    var rankI :| Ranked(ParentMap(incoming.nodes), rankI);
    var rank := MergedRanked(existing, incoming, rankE, rankI);
  }

  lemma {:induction false} TwoRoots(existing: PublicTree, incoming: PublicTree)
    requires ValidTree(existing) && ValidTree(incoming) && !ValidTree(Merged(existing, incoming))
    ensures RootCount(Merged(existing, incoming).nodes) == 2
  {
    var re: nat :| ValidWithRoot(existing, re);
    var ri: nat :| ValidWithRoot(incoming, ri);
    var names := Names(incoming.nodes);
    MergeExact(existing, incoming);
    RootNameMeaning(existing.nodes, re);
    RootCountMeaning(existing.nodes);
    RootCountMeaning(incoming.nodes);
    RootCountAppend(incoming.nodes, Keep(existing.nodes, Unmentioned(names)));
    forall n | n in existing.nodes && n.parent.None? ensures Unmentioned(names)(n) {
      var i :| 0 <= i < |existing.nodes| && existing.nodes[i] == n;
    }
    RootCountKept(existing.nodes, Unmentioned(names));
  }
}
