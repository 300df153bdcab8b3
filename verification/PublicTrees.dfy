/** Public trees (`PublicTree` in `src/key_tree.rs`): nodes named by label with the label of
their parent, a bridge whitelist and the established links. Climbing the parent labels. */
module PublicTrees {
  import opened Errors

  datatype PublicNode = PublicNode(
    name: string,
    parent: Option<string>,
    threshold: Option<nat>,
    active: bool,
    fingerprint: Option<string>,
    publicKey: Option<string>)

  datatype PublicEdge = PublicEdge(source: string, target: string) {
    predicate Within(names: set<string>) { source in names && target in names }

    function Flipped(): PublicEdge { PublicEdge(target, source) }
  }

  datatype PublicTree = PublicTree(
    name: string,
    generation: nat,
    nodes: seq<PublicNode>,
    whitelist: seq<PublicEdge>,
    links: seq<PublicEdge>)

  function Names(nodes: seq<PublicNode>): (s: set<string>) {
    set i | 0 <= i < |nodes| :: nodes[i].name
  }

  ghost predicate DistinctNames(nodes: seq<PublicNode>) {
    forall i, j :: 0 <= i < j < |nodes| ==> nodes[i].name != nodes[j].name
  }

  // ----- parents by label

  type Parents = map<string, Option<string>>

  /** The map built by inserting the nodes one after the other. */
  function ParentMap(nodes: seq<PublicNode>): (m: Parents)
    ensures m.Keys == Names(nodes)
  {
    if nodes == [] then map[]
    else
      var n := nodes[|nodes| - 1];
      var before := nodes[..|nodes| - 1];
      assert Names(nodes) == Names(before) + {n.name} by { NamesLast(before, n); assert before + [n] == nodes; }
      ParentMap(before)[n.name := n.parent]
  }

  lemma NamesLast(nodes: seq<PublicNode>, n: PublicNode)
    ensures Names(nodes + [n]) == Names(nodes) + {n.name}
  {
    var all := nodes + [n];
    forall x | x in Names(nodes) + {n.name} ensures x in Names(all) {
      if x == n.name {
        assert all[|nodes|] == n;
      } else {
        var i :| 0 <= i < |nodes| && nodes[i].name == x;
        assert all[i] == nodes[i];
      }
    }
  }

  lemma {:induction false} ParentMapAt(nodes: seq<PublicNode>, i: nat)
    requires DistinctNames(nodes) && i < |nodes|
    ensures nodes[i].name in ParentMap(nodes) && ParentMap(nodes)[nodes[i].name] == nodes[i].parent
  {
    if i < |nodes| - 1 {
      ParentMapAt(nodes[..|nodes| - 1], i);
    }
  }

  // ----- climbing

  function Parent(m: Parents, x: string): Option<string> {
    if x in m then m[x] else None
  }

  /** n steps up from x. */
  function Up(m: Parents, x: string, n: nat): Option<string>
    decreases n
  {
    if n == 0 then Some(x)
    else match Parent(m, x)
      case None => None
      case Some(p) => Up(m, p, n - 1)
  }

  /** y is x or an ancestor of x. */
  ghost predicate Reaches(m: Parents, x: string, y: string) {
    exists n: nat :: Up(m, x, n) == Some(y)
  }

  lemma ReachesSelf(m: Parents, x: string)
    ensures Reaches(m, x, x)
  {
    assert Up(m, x, 0) == Some(x);
  }

  lemma {:induction false} UpTwice(m: Parents, x: string, i: nat, y: string, j: nat)
    requires Up(m, x, i) == Some(y)
    ensures Up(m, x, i + j) == Up(m, y, j)
    decreases i
  {
    if i > 0 {
      UpTwice(m, Parent(m, x).value, i - 1, y, j);
    }
  }

  lemma ReachesTwice(m: Parents, x: string, y: string, z: string)
    requires Reaches(m, x, y) && Reaches(m, y, z)
    ensures Reaches(m, x, z)
  {
    var i: nat :| Up(m, x, i) == Some(y);
    var j: nat :| Up(m, y, j) == Some(z);
    UpTwice(m, x, i, y, j);
  }

  lemma ReachesParent(m: Parents, x: string, p: string)
    requires Parent(m, x) == Some(p)
    ensures Reaches(m, x, p)
  {
    assert Up(m, p, 0) == Some(p) && Up(m, x, 1) == Up(m, p, 0);
  }

  ghost predicate ClosedUp(m: Parents, s: set<string>) {
    forall x :: x in s && Parent(m, x).Some? ==> Parent(m, x).value in s
  }

  lemma {:induction false} ClosedUpHolds(m: Parents, s: set<string>, x: string, n: nat)
    requires ClosedUp(m, s) && x in s
    ensures Up(m, x, n).Some? ==> Up(m, x, n).value in s
    decreases n
  {
    if n > 0 && Parent(m, x).Some? {
      ClosedUpHolds(m, s, Parent(m, x).value, n - 1);
    }
  }

  lemma ClosedUpReaches(m: Parents, s: set<string>, x: string, y: string)
    requires ClosedUp(m, s) && x in s && Reaches(m, x, y)
    ensures y in s
  {
    var n: nat :| Up(m, x, n) == Some(y);
    ClosedUpHolds(m, s, x, n);
  }

  // ----- acyclic parents

  /** Every label ranks above its parent. */
  ghost predicate Ranked(m: Parents, rank: string -> nat) {
    forall x :: x in m && m[x].Some? ==> rank(m[x].value) < rank(x)
  }

  ghost predicate Acyclic(m: Parents) {
    exists rank :: Ranked(m, rank)
  }

  lemma {:induction false} UpRanks(m: Parents, rank: string -> nat, x: string, n: nat)
    requires Ranked(m, rank) && Up(m, x, n).Some?
    ensures rank(Up(m, x, n).value) + n <= rank(x)
    decreases n
  {
    if n > 0 {
      UpRanks(m, rank, Parent(m, x).value, n - 1);
    }
  }

  /** Without cycles, two labels that reach each other are the same. */
  lemma ReachesAntisymmetric(m: Parents, x: string, y: string)
    requires Acyclic(m) && Reaches(m, x, y) && Reaches(m, y, x)
    ensures x == y
  {
    var rank :| Ranked(m, rank);
    var i: nat :| Up(m, x, i) == Some(y);
    var j: nat :| Up(m, y, j) == Some(x);
    UpRanks(m, rank, x, i);
    UpRanks(m, rank, y, j);
  }

  /** The step count to the root, for a label that reaches it. */
  ghost function Height(m: Parents, root: string, x: string): (n: nat) {
    if Reaches(m, x, root) then
      var n: nat :| Up(m, x, n) == Some(root);
      n
    else 0
  }

  lemma {:induction false} OneHeight(m: Parents, root: string, x: string, i: nat, j: nat)
    requires Parent(m, root).None? && Up(m, x, i) == Some(root) && Up(m, x, j) == Some(root)
    ensures i == j
    decreases i
  {
    if i > 0 && j > 0 {
      OneHeight(m, root, Parent(m, x).value, i - 1, j - 1);
    }
  }

  lemma HeightAboveParent(m: Parents, root: string, x: string)
    requires Parent(m, root).None? && Parent(m, x).Some? && Reaches(m, x, root)
    ensures Reaches(m, Parent(m, x).value, root)
    ensures Height(m, root, Parent(m, x).value) < Height(m, root, x)
  {
    var p := Parent(m, x).value;
    var n: nat :| Up(m, x, n) == Some(root);
    assert n > 0 && Up(m, p, n - 1) == Some(root);
    OneHeight(m, root, x, n, Height(m, root, x));
    OneHeight(m, root, p, n - 1, Height(m, root, p));
  }

  /** If every label reaches a root without a parent, there is no cycle. */
  lemma ReachingRootIsAcyclic(m: Parents, root: string)
    requires Parent(m, root).None? && forall x :: x in m ==> Reaches(m, x, root)
    ensures Acyclic(m)
  {
    var rank := x => Height(m, root, x);
    forall x | x in m && m[x].Some? ensures rank(m[x].value) < rank(x) {
      HeightAboveParent(m, root, x);
    }
    assert Ranked(m, rank);
  }

  /** Without cycles and dangling parents, every label reaches the only one without a parent. */
  lemma {:induction false} AcyclicReachesRoot(m: Parents, rank: string -> nat, root: string, x: string)
    requires Ranked(m, rank) && x in m
    requires forall y :: y in m && m[y].Some? ==> m[y].value in m
    requires forall y :: y in m && m[y].None? ==> y == root
    ensures Reaches(m, x, root)
    decreases rank(x)
  {
    if m[x].None? {
      ReachesSelf(m, x);
    } else {
      AcyclicReachesRoot(m, rank, root, m[x].value);
      ReachesParent(m, x, m[x].value);
      ReachesTwice(m, x, m[x].value, root);
    }
  }

  /** A rank bound on finitely many labels. */
  ghost function MaxRank(rank: string -> nat, s: set<string>): (b: nat)
    ensures forall x :: x in s ==> rank(x) < b
  {
    if s == {} then 0
    else
      var x :| x in s;
      var rest := MaxRank(rank, s - {x});
      if rank(x) < rest then rest else rank(x) + 1
  }
}
