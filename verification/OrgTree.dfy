/** Validating a public tree before the relay stores it (`src/relay/org_tree.rs`). */
module OrgTree {
  import opened Errors
  import opened Lists
  import opened PublicTrees

  predicate HexDigit(c: char) {
    '0' <= c <= '9' || 'a' <= c <= 'f' || 'A' <= c <= 'F'
  }

  /** 32 bytes in hexadecimal. */
  predicate IsHexKey(s: string) {
    |s| == 64 && forall i :: 0 <= i < |s| ==> HexDigit(s[i])
  }

  // ----- what a valid tree is

  /** A split with a positive threshold and no key, or a leaf with a fingerprint and a key. */
  predicate ShapeOk(n: PublicNode) {
    match n.threshold
    case Some(t) => t > 0 && n.fingerprint.None? && n.publicKey.None?
    case None => n.fingerprint.Some? && n.publicKey.Some? && IsHexKey(n.publicKey.value)
  }

  ghost predicate NodesOk(nodes: seq<PublicNode>) {
    DistinctNames(nodes) && forall i :: 0 <= i < |nodes| ==> nodes[i].name != "" && ShapeOk(nodes[i])
  }

  /** The node at r, and no other, has no parent. */
  ghost predicate RootAt(nodes: seq<PublicNode>, r: nat) {
    r < |nodes| && forall i :: 0 <= i < |nodes| ==> (nodes[i].parent.None? <==> i == r)
  }

  predicate ParentListed(n: PublicNode, names: set<string>) {
    n.parent.Some? ==> n.parent.value in names
  }

  ghost predicate ParentsListed(nodes: seq<PublicNode>) {
    forall i :: 0 <= i < |nodes| ==> ParentListed(nodes[i], Names(nodes))
  }

  predicate EndsOk(e: PublicEdge, names: set<string>) {
    e.source != e.target && e.Within(names)
  }

  ghost predicate AllEndsOk(edges: seq<PublicEdge>, names: set<string>) {
    forall e :: e in edges ==> EndsOk(e, names)
  }

  predicate Whitelisted(e: PublicEdge, whitelist: seq<PublicEdge>) {
    e in whitelist || e.Flipped() in whitelist
  }

  ghost predicate LinksOk(links: seq<PublicEdge>, whitelist: seq<PublicEdge>) {
    Distinct(links) && forall e :: e in links ==> Whitelisted(e, whitelist)
  }

  ghost predicate EdgesOk(t: PublicTree) {
    && AllEndsOk(t.whitelist, Names(t.nodes)) && AllEndsOk(t.links, Names(t.nodes))
    && Distinct(t.whitelist) && LinksOk(t.links, t.whitelist)
  }

  ghost predicate AllReach(nodes: seq<PublicNode>, root: string) {
    forall i :: 0 <= i < |nodes| ==> Reaches(ParentMap(nodes), nodes[i].name, root)
  }

  ghost predicate ValidWithRoot(t: PublicTree, r: nat) {
    && t.name != "" && NodesOk(t.nodes) && RootAt(t.nodes, r) && ParentsListed(t.nodes) && EdgesOk(t)
    && AllReach(t.nodes, t.nodes[r].name)
  }

  ghost predicate ValidTree(t: PublicTree) {
    exists r: nat :: ValidWithRoot(t, r)
  }

  // ----- what the validator answers

  /** Why the next node is refused, given the labels already seen. */
  function NodeError(n: PublicNode, labels: set<string>): Option<Error> {
    if n.name == "" || n.name in labels then Some(DuplicateNodeLabel)
    else if ShapeOk(n) then None
    else if n.threshold.None? && n.fingerprint.Some? && n.publicKey.Some? then Some(InvalidPublicKey)
    else Some(InvalidTreeSpec)
  }

  function FirstNodeError(nodes: seq<PublicNode>, labels: set<string>): Option<Error> {
    if nodes == [] then None
    else match NodeError(nodes[0], labels)
      case Some(e) => Some(e)
      case None => FirstNodeError(nodes[1..], labels + {nodes[0].name})
  }

  function RootCount(nodes: seq<PublicNode>): nat {
    if nodes == [] then 0 else (if nodes[0].parent.None? then 1 else 0) + RootCount(nodes[1..])
  }

  /** The label of the last node without a parent. */
  function RootName(nodes: seq<PublicNode>): Option<string> {
    if nodes == [] then None
    else
      var n := nodes[|nodes| - 1];
      if n.parent.None? then Some(n.name) else RootName(nodes[..|nodes| - 1])
  }

  /** The checks in order, with the error of the first that fails. */
  ghost function Verdict(t: PublicTree): Result<()> {
    if t.name == "" || t.nodes == [] then Err(InvalidTreeSpec)
    else if FirstNodeError(t.nodes, {}).Some? then Err(FirstNodeError(t.nodes, {}).value)
    else if RootCount(t.nodes) != 1 || !ParentsListed(t.nodes) then Err(InvalidTreeSpec)
    else if !EdgesOk(t) then Err(InvalidBridge)
    else if RootName(t.nodes).None? || !AllReach(t.nodes, RootName(t.nodes).value) then Err(InvalidTreeSpec)
    else Ok(())
  }

  lemma {:induction false} FirstNodeErrorMeaning(nodes: seq<PublicNode>, labels: set<string>)
    ensures FirstNodeError(nodes, labels).None? <==>
      NodesOk(nodes) && forall i :: 0 <= i < |nodes| ==> nodes[i].name !in labels
  {
    if nodes != [] {
      var n, rest := nodes[0], nodes[1..];
      FirstNodeErrorMeaning(rest, labels + {n.name});
      assert forall i :: 0 <= i < |rest| ==> rest[i] == nodes[i + 1];
      assert nodes == [n] + rest;
      if FirstNodeError(nodes, labels).None? {
        forall i | 0 <= i < |nodes| ensures nodes[i].name != "" && ShapeOk(nodes[i]) && nodes[i].name !in labels {
          assert i > 0 ==> nodes[i] == rest[i - 1];
        }
      } else if NodesOk(nodes) && forall i :: 0 <= i < |nodes| ==> nodes[i].name !in labels {
        assert NodeError(n, labels).None?;
        assert NodesOk(rest);
      }
    }
  }

  lemma {:induction false} RootCountMeaning(nodes: seq<PublicNode>)
    ensures RootCount(nodes) == 0 <==> forall i :: 0 <= i < |nodes| ==> nodes[i].parent.Some?
    ensures RootCount(nodes) == 1 <==> exists r: nat :: RootAt(nodes, r)
  {
    if nodes != [] {
      var rest := nodes[1..];
      RootCountMeaning(rest);
      assert forall i :: 0 <= i < |rest| ==> rest[i] == nodes[i + 1];
      assert forall i :: 0 < i < |nodes| ==> nodes[i] == rest[i - 1];
      if nodes[0].parent.None? {
        if RootCount(rest) == 0 {
          assert RootAt(nodes, 0);
        }
      } else if r: nat :| RootAt(rest, r) {
        assert RootAt(nodes, r + 1);
      } else if r: nat :| RootAt(nodes, r) {
        assert RootAt(rest, r - 1);
      }
    }
  }

  lemma {:induction false} RootNameMeaning(nodes: seq<PublicNode>, r: nat)
    requires RootAt(nodes, r)
    ensures RootName(nodes) == Some(nodes[r].name)
  {
    if r < |nodes| - 1 {
      RootNameMeaning(nodes[..|nodes| - 1], r);
    }
  }

  /** The validator accepts exactly the valid trees. */
  lemma VerdictExact(t: PublicTree)
    ensures Verdict(t).Ok? <==> ValidTree(t)
  {
    FirstNodeErrorMeaning(t.nodes, {});
    RootCountMeaning(t.nodes);
    if Verdict(t).Ok? {
      var r: nat :| RootAt(t.nodes, r);
      RootNameMeaning(t.nodes, r);
      assert ValidWithRoot(t, r);
    } else if r: nat :| ValidWithRoot(t, r) {
      assert RootAt(t.nodes, r);
      RootNameMeaning(t.nodes, r);
    }
  }

  // ----- the validator

  method CheckNodes(nodes: seq<PublicNode>) returns (r: Result<nat>, labels: set<string>)
    ensures match FirstNodeError(nodes, {})
      case Some(e) => r == Err(e)
      case None => r == Ok(RootCount(nodes)) && labels == Names(nodes)
  {
    labels := {};
    var roots := 0;
    var i := 0;
    while i < |nodes|
      invariant 0 <= i <= |nodes| && labels == Names(nodes[..i])
      invariant FirstNodeError(nodes, {}) == FirstNodeError(nodes[i..], labels)
      invariant RootCount(nodes) == roots + RootCount(nodes[i..])
    {
      var node := nodes[i];
      assert nodes[i..][0] == node && nodes[i..][1..] == nodes[i + 1..];
      if node.name == "" || node.name in labels {
        return Err(DuplicateNodeLabel), labels;
      }
      NamesLast(nodes[..i], node);
      assert nodes[..i + 1] == nodes[..i] + [node];
      labels := labels + {node.name};
      if node.parent.None? {
        roots := roots + 1;
      }
      match (node.threshold, node.fingerprint, node.publicKey) {
        case (Some(t), None, None) =>
          if t == 0 {
            return Err(InvalidTreeSpec), labels;
          }
        case (None, Some(_), Some(pk)) =>
          if !IsHexKey(pk) {
            return Err(InvalidPublicKey), labels;
          }
        case _ =>
          return Err(InvalidTreeSpec), labels;
      }
      i := i + 1;
    }
    assert nodes[..i] == nodes && nodes[i..] == [];
    return Ok(roots), labels;
  }

  method CheckEnds(edges: seq<PublicEdge>, labels: set<string>) returns (ok: bool)
    ensures ok <==> AllEndsOk(edges, labels)
  {
    for i := 0 to |edges|
      invariant forall k :: 0 <= k < i ==> EndsOk(edges[k], labels)
    {
      if edges[i].source == edges[i].target || edges[i].source !in labels || edges[i].target !in labels {
        assert edges[i] in edges;
        return false;
      }
    }
    return true;
  }

  method CheckWhitelist(whitelist: seq<PublicEdge>) returns (ok: bool)
    ensures ok <==> Distinct(whitelist)
  {
    var seen: set<PublicEdge> := {};
    for i := 0 to |whitelist|
      invariant forall e :: e in seen <==> exists k :: 0 <= k < i && whitelist[k] == e
      invariant forall j, k :: 0 <= j < k < i ==> whitelist[j] != whitelist[k]
    {
      if whitelist[i] in seen {
        return false;
      }
      seen := seen + {whitelist[i]};
    }
    return true;
  }

  method CheckLinks(links: seq<PublicEdge>, whitelist: seq<PublicEdge>) returns (ok: bool)
    ensures ok <==> LinksOk(links, whitelist)
  {
    var seen: set<PublicEdge> := {};
    for i := 0 to |links|
      invariant forall e :: e in seen <==> exists k :: 0 <= k < i && links[k] == e
      invariant forall j, k :: 0 <= j < k < i ==> links[j] != links[k]
      invariant forall k :: 0 <= k < i ==> Whitelisted(links[k], whitelist)
    {
      if links[i] in seen {
        return false;
      }
      seen := seen + {links[i]};
      if !Whitelisted(links[i], whitelist) {
        assert links[i] in links;
        return false;
      }
    }
    return true;
  }

  /** `reaches_root`: climb from `start` until the root, a missing parent or a repetition. */
  method ReachesRoot(parentOf: Parents, start: string, root: string) returns (ok: bool)
    ensures ok <==> Reaches(parentOf, start, root)
  {
    var cur := Some(start);
    var seen: set<string> := {};
    ReachesSelf(parentOf, start);
    while cur.Some?
      invariant cur.Some? ==> Reaches(parentOf, start, cur.value)
      invariant start in seen || cur == Some(start)
      invariant root !in seen
      invariant forall x :: x in seen && Parent(parentOf, x).Some? ==>
        Parent(parentOf, x).value in seen || cur == Parent(parentOf, x)
      decreases |parentOf.Keys - seen|, if cur.Some? then 1 else 0
    {
      var at := cur.value;
      if at in seen {
        if Reaches(parentOf, start, root) {
          ClosedUpReaches(parentOf, seen, start, root);
        }
        return false;
      }
      if at == root {
        return true;
      }
      if Parent(parentOf, at).Some? {
        ReachesParent(parentOf, at, Parent(parentOf, at).value);
        ReachesTwice(parentOf, start, at, Parent(parentOf, at).value);
      }
      assert at in parentOf ==> parentOf.Keys - seen == parentOf.Keys - (seen + {at}) + {at};
      assert at !in parentOf ==> parentOf.Keys - (seen + {at}) == parentOf.Keys - seen;
      seen := seen + {at};
      cur := Parent(parentOf, at);
    }
    if Reaches(parentOf, start, root) {
      ClosedUpReaches(parentOf, seen, start, root);
    }
    return false;
  }

  /** The parent of every label, and the last label without one. */
  method CollectParents(nodes: seq<PublicNode>) returns (parentOf: Parents, root: Option<string>)
    ensures parentOf == ParentMap(nodes) && root == RootName(nodes)
  {
    parentOf, root := map[], None;
    for i := 0 to |nodes|
      invariant parentOf == ParentMap(nodes[..i]) && root == RootName(nodes[..i])
    {
      assert nodes[..i + 1][..i] == nodes[..i];
      parentOf := parentOf[nodes[i].name := nodes[i].parent];
      if nodes[i].parent.None? {
        root := Some(nodes[i].name);
      }
    }
    assert nodes[..|nodes|] == nodes;
  }

  method CheckReach(nodes: seq<PublicNode>) returns (ok: bool)
    ensures ok <==> RootName(nodes).Some? && AllReach(nodes, RootName(nodes).value)
  {
    var parentOf, root := CollectParents(nodes);
    if root.None? {
      return false;
    }
    for i := 0 to |nodes|
      invariant forall k :: 0 <= k < i ==> Reaches(parentOf, nodes[k].name, root.value)
    {
      var reached := ReachesRoot(parentOf, nodes[i].name, root.value);
      if !reached {
        return false;
      }
    }
    return true;
  }

  /** `validate_public_tree` */
  method ValidatePublicTree(tree: PublicTree) returns (r: Result<()>)
    ensures r == Verdict(tree)
    ensures r.Ok? <==> ValidTree(tree)
  {
    VerdictExact(tree);
    if tree.name == "" || tree.nodes == [] {
      return Err(InvalidTreeSpec);
    }
    var roots, labels := CheckNodes(tree.nodes);
    if roots.Err? {
      return Err(roots.error);
    }
    if roots.value != 1 {
      return Err(InvalidTreeSpec);
    }
    for i := 0 to |tree.nodes|
      invariant forall k :: 0 <= k < i ==> ParentListed(tree.nodes[k], labels)
    {
      if tree.nodes[i].parent.Some? && tree.nodes[i].parent.value !in labels {
        return Err(InvalidTreeSpec);
      }
    }
    var whitelistEnds := CheckEnds(tree.whitelist, labels);
    var linkEnds := CheckEnds(tree.links, labels);
    var distinct := CheckWhitelist(tree.whitelist);
    var listed := CheckLinks(tree.links, tree.whitelist);
    if !whitelistEnds || !linkEnds || !distinct || !listed {
      return Err(InvalidBridge);
    }
    var reached := CheckReach(tree.nodes);
    return if reached then Ok(()) else Err(InvalidTreeSpec);
  }
}
