/** A tree's shares below its quorum say nothing about its secret: they belong to a tree of the same shape with any
other secret at the root (`reconstruct` in `src/key_tree.rs`). */
module KeySecrecy {
  import opened Errors
  import opened Field
  import opened Polynomials
  import opened Shamir
  import opened KeyTree
  import opened KeyStore
  import opened KeyRuns
  import KeySplit
  import opened Secrecy

  // ----- subtrees

  lemma {:induction false} ChildWithin(a: Arena, i: nat, c: nat, j: nat)
    requires Rooted(a) && i < |a.nodes| && j < |a.nodes| && IsParent(a, i, c) && Above(a, c, j)
    ensures Above(a, i, j)
    decreases Depths(a)[j]
  {
    if c != j {
      var p := a.nodes[j].parent.value;
      assert IsParent(a, p, j);
      ChildWithin(a, i, c, p);
    }
  }

  /** What lies properly below a node lies below one of its children. */
  lemma {:induction false} BelowChild(a: Arena, i: nat, j: nat) returns (c: nat)
    requires Rooted(a) && i < |a.nodes| && j < |a.nodes| && Above(a, i, j) && i != j
    ensures IsParent(a, i, c) && Above(a, c, j)
    decreases Depths(a)[j]
  {
    var p := a.nodes[j].parent.value;
    assert IsParent(a, p, j);
    if p == i {
      c := j;
    } else {
      c := BelowChild(a, i, p);
    }
  }

  /** Different children of a node have nothing in common below them. */
  lemma {:induction false} ChildrenApart(a: Arena, i: nat, c: nat, d: nat, j: nat)
    requires Rooted(a) && i < |a.nodes| && j < |a.nodes| && IsParent(a, i, c) && IsParent(a, i, d) && c != d
    ensures !(Above(a, c, j) && Above(a, d, j))
    decreases Depths(a)[j]
  {
    if Above(a, c, j) && Above(a, d, j) {
      if j == c {
        NotBelowSibling(a, i, d, c);
      } else if j == d {
        NotBelowSibling(a, i, c, d);
      } else {
        var p := a.nodes[j].parent.value;
        assert IsParent(a, p, j);
        ChildrenApart(a, i, c, d, p);
      }
    }
  }

  lemma NotBelowSibling(a: Arena, i: nat, c: nat, d: nat)
    requires Rooted(a) && i < |a.nodes| && IsParent(a, i, c) && IsParent(a, i, d) && c != d
    ensures !Above(a, c, d)
  {
    if Above(a, c, i) {
      AboveIsNotBelow(a, c, i);
    }
  }

  // ----- other values for the same shares

  ghost predicate Dealt(g: Gf, a: Arena, values: seq<Bytes>, j: nat)
    requires Linked(a) && |values| == |a.nodes| && j < |a.nodes|
  {
    a.nodes[j].threshold.Some? ==> exists polys :: DealtBy(g, a, values, j, polys)
  }

  /** The new values give node i the value v, change nothing outside its subtree, fit the same entries, and every
  split of the subtree is still dealt. */
  ghost predicate Recast(g: Gf, a: Arena, values: seq<Bytes>, after: seq<Bytes>, i: nat, v: Bytes, raw: RawShares)
    requires Rooted(a) && |values| == |a.nodes| && i < |a.nodes|
  {
    && |after| == |values| && after[i] == v && Presented(a, after, raw)
    && (forall j :: 0 <= j < |values| && !Above(a, i, j) ==> after[j] == values[j])
    && (forall j :: 0 <= j < |values| && Above(a, i, j) ==> Dealt(g, a, after, j))
  }

  /** Dealing looks at a split and its children only. */
  lemma DealtAlike(g: Gf, a: Arena, values: seq<Bytes>, others: seq<Bytes>, j: nat)
    requires Linked(a) && |values| == |others| == |a.nodes| && j < |a.nodes| && Dealt(g, a, values, j)
    requires others[j] == values[j] && forall c :: c in a.nodes[j].children ==> others[c] == values[c]
    ensures Dealt(g, a, others, j)
  {
    if a.nodes[j].threshold.Some? {
      var polys :| DealtBy(g, a, values, j, polys);
      assert DealtBy(g, a, others, j, polys);
    }
  }

  // ----- one split

  /** What the greedy loop gathers: values of active children and, short of t, those of all that resolve. */
  lemma {:induction false} GatherHolds(g: Gf, a: Arena, values: seq<Bytes>, i: nat, cs: seq<nat>, t: nat, got: seq<Bytes>,
                                       raw: RawShares)
    requires Genuinely(g, a, values) && Presented(a, values, raw) && i < |a.nodes| && a.nodes[i].threshold.Some?
    requires (forall c :: c in cs ==> IsParent(a, i, c)) && AllParse(got)
    ensures var r := Gather(g, a, i, cs, None, t, got, raw);
      && (forall s :: s in r ==> s in got || exists c :: c in cs && a.nodes[c].active && s == values[c])
      && (|r| < t ==> (forall s :: s in got ==> s in r) && forall c :: c in cs && Resolves(a, c, raw) ==> values[c] in r)
    decreases |cs|
  {
    if cs != [] && |got| < t {
      var c := cs[0];
      assert IsParent(a, i, c);
      AnswerExact(g, a, values, c, raw);
      var next := if Resolves(a, c, raw) then got + [values[c]] else got;
      assert AllParse(next);
      GatherHolds(g, a, values, i, cs[1..], t, next, raw);
    }
  }

  /** New polynomials for another value of an unresolved split: the children that resolve keep their shares. */
  ghost predicate Keeps(g: Gf, a: Arena, values: seq<Bytes>, i: nat, polys: seq<Poly>, raw: RawShares)
    requires Rooted(a) && |values| == |a.nodes| && i < |a.nodes|
  {
    forall c: nat :: IsParent(a, i, c) && Resolves(a, c, raw) ==>
      |values[c]| >= 1 && values[c] == ShareAt(g, polys, values[c][0])
  }

  lemma NewPolys(g: Gf, a: Arena, values: seq<Bytes>, i: nat, v: Bytes, raw: RawShares) returns (polys: seq<Poly>)
    requires Genuinely(g, a, values) && Presented(a, values, raw) && i < |a.nodes| && a.nodes[i].threshold.Some?
    requires a.nodes[i].active && !Resolves(a, i, raw) && |v| == |values[i]|
    ensures Deals(polys, a.nodes[i].threshold.value, v) && Keeps(g, a, values, i, polys, raw)
  {
    var t := a.nodes[i].threshold.value;
    var r := ResolvedFew(g, a, values, i, raw);
    var tape := AnySharesFit(g, v, t, r);
    polys := Dealer(v, t, tape);
    forall c: nat | IsParent(a, i, c) && Resolves(a, c, raw)
      ensures |values[c]| >= 1 && values[c] == ShareAt(g, polys, values[c][0])
    {
      var k :| 0 <= k < |r| && r[k] == values[c];
    }
  }

  /** The shares of the children that resolve, fewer than the threshold. */
  lemma ResolvedFew(g: Gf, a: Arena, values: seq<Bytes>, i: nat, raw: RawShares) returns (r: seq<Bytes>)
    requires Genuinely(g, a, values) && Presented(a, values, raw) && i < |a.nodes| && a.nodes[i].threshold.Some?
    requires a.nodes[i].active && !Resolves(a, i, raw)
    ensures Few(r, |values[i]|, a.nodes[i].threshold.value)
    ensures forall c: nat :: IsParent(a, i, c) && Resolves(a, c, raw) ==> values[c] in r
  {
    var was :| DealtBy(g, a, values, i, was);
    var t, cs := a.nodes[i].threshold.value, a.nodes[i].children;
    r := Gather(g, a, i, cs, None, t, [], raw);
    GatherExact(g, a, values, i, was, cs, None, t, [], raw);
    GatherHolds(g, a, values, i, cs, t, [], raw);
    GatheredFew(g, a, values, i, was, r);
  }

  lemma GatheredFew(g: Gf, a: Arena, values: seq<Bytes>, i: nat, polys: seq<Poly>, r: seq<Bytes>)
    requires Linked(a) && |values| == |a.nodes| && i < |a.nodes| && a.nodes[i].threshold.Some?
    requires DealtBy(g, a, values, i, polys) && Genuine(g, polys, r) && Distinct(Xs(r)) && |r| < a.nodes[i].threshold.value
    requires forall s :: s in r ==> exists c :: c in a.nodes[i].children && a.nodes[c].active && s == values[c]
    ensures Few(r, |values[i]|, a.nodes[i].threshold.value)
  {
    forall k | 0 <= k < |r| ensures |r[k]| == |values[i]| + 1 && r[k][0] != 0 {
      assert r[k] in r;
      var c :| c in a.nodes[i].children && a.nodes[c].active && r[k] == values[c];
    }
  }

  // ----- the whole subtree

  /** The active ones among these children of node i have their shares of the polynomials, and only their subtrees
  have changed. */
  ghost predicate RecastBelow(g: Gf, a: Arena, values: seq<Bytes>, after: seq<Bytes>, cs: seq<nat>, polys: seq<Poly>,
                              raw: RawShares)
    requires Rooted(a) && |values| == |a.nodes|
  {
    && |after| == |values| && Presented(a, after, raw)
    && (forall c :: c in cs && c < |values| && a.nodes[c].active ==>
          |values[c]| >= 1 && after[c] == ShareAt(g, polys, values[c][0]))
    && (forall j :: 0 <= j < |values| && !Touched(a, cs, j) ==> after[j] == values[j])
    && (forall j :: 0 <= j < |values| && Touched(a, cs, j) ==> Dealt(g, a, after, j))
  }

  /** Node j lies in the subtree of an active one of these. */
  ghost predicate Touched(a: Arena, cs: seq<nat>, j: nat)
    requires Rooted(a) && j < |a.nodes|
  {
    exists c :: c in cs && c < |a.nodes| && a.nodes[c].active && Above(a, c, j)
  }

  /** Values that are the part's below node c and the rest's elsewhere. */
  function Patched(a: Arena, c: nat, part: seq<Bytes>, rest: seq<Bytes>): (after: seq<Bytes>)
    requires Rooted(a) && c < |a.nodes| && |part| == |rest| == |a.nodes|
    ensures |after| == |a.nodes|
  {
    seq<Bytes>(|a.nodes|, j requires 0 <= j < |a.nodes| => if Above(a, c, j) then part[j] else rest[j])
  }

  lemma {:induction false} PatchedDealt(g: Gf, a: Arena, c: nat, part: seq<Bytes>, rest: seq<Bytes>, j: nat)
    requires Rooted(a) && c < |a.nodes| && |part| == |rest| == |a.nodes| && j < |a.nodes|
    requires Dealt(g, a, if Above(a, c, j) then part else rest, j)
    requires !Above(a, c, j) ==> c !in a.nodes[j].children
    ensures Dealt(g, a, Patched(a, c, part, rest), j)
  {
    forall e | e in a.nodes[j].children ensures Above(a, c, e) <==> Above(a, c, j) {
      assert IsParent(a, j, e);
    }
    DealtAlike(g, a, if Above(a, c, j) then part else rest, Patched(a, c, part, rest), j);
  }

  lemma PatchedPresented(a: Arena, c: nat, part: seq<Bytes>, rest: seq<Bytes>, raw: RawShares)
    requires Rooted(a) && c < |a.nodes| && |part| == |rest| == |a.nodes|
    requires Presented(a, part, raw) && Presented(a, rest, raw)
    ensures Presented(a, Patched(a, c, part, rest), raw)
  {
  }

  /** The same entries, below the threshold, under another value of the node. */
  lemma {:induction false} RecastAt(g: Gf, a: Arena, values: seq<Bytes>, i: nat, v: Bytes, raw: RawShares)
    returns (after: seq<Bytes>)
    requires Genuinely(g, a, values) && Presented(a, values, raw) && SplitsActive(a) && ParentsSplit(a)
    requires i < |a.nodes| && a.nodes[i].active && !Resolves(a, i, raw) && |v| == |values[i]|
    ensures Recast(g, a, values, after, i, v, raw)
    decreases Room(a, i), |a.nodes[i].children| + 1
  {
    if a.nodes[i].threshold.None? {
      after := values[i := v];
      LeafAlone(a, i);
      assert Presented(a, after, raw);
    } else {
      var polys := NewPolys(g, a, values, i, v, raw);
      var mid := RecastChildren(g, a, values, i, a.nodes[i].children, polys, raw);
      after := mid[i := v];
      RecastSplit(g, a, values, mid, i, v, polys, raw);
    }
  }

  lemma LeafAlone(a: Arena, i: nat)
    requires Rooted(a) && ParentsSplit(a) && i < |a.nodes| && a.nodes[i].threshold.None?
    ensures forall j :: 0 <= j < |a.nodes| && Above(a, i, j) ==> j == i
  {
    forall j | 0 <= j < |a.nodes| && Above(a, i, j) ensures j == i {
      if j != i {
        var c := BelowChild(a, i, j);
      }
    }
  }

  lemma {:induction false} RecastChildren(g: Gf, a: Arena, values: seq<Bytes>, i: nat, cs: seq<nat>, polys: seq<Poly>,
                                          raw: RawShares) returns (after: seq<Bytes>)
    requires Genuinely(g, a, values) && Presented(a, values, raw) && SplitsActive(a) && ParentsSplit(a)
    requires i < |a.nodes| && a.nodes[i].threshold.Some? && (forall c :: c in cs ==> IsParent(a, i, c)) && NoRepeats(cs)
    requires |polys| == |values[i]| && Keeps(g, a, values, i, polys, raw)
    ensures RecastBelow(g, a, values, after, cs, polys, raw)
    decreases Room(a, i), |cs|
  {
    after := values;
    if cs != [] {
      var c := cs[0];
      assert IsParent(a, i, c);
      var rest := RecastChildren(g, a, values, i, cs[1..], polys, raw);
      var part := values;
      if a.nodes[c].active && !Resolves(a, c, raw) {
        ChildShare(g, a, values, i, c);
        part := RecastAt(g, a, values, c, ShareAt(g, polys, values[c][0]), raw);
      }
      after := Patched(a, c, part, rest);
      RecastNext(g, a, values, i, cs, polys, part, rest, raw);
    }
  }

  /** An active child's share has a point and a value for each byte of its parent's. */
  lemma ChildShare(g: Gf, a: Arena, values: seq<Bytes>, i: nat, c: nat)
    requires Genuinely(g, a, values) && i < |a.nodes| && a.nodes[i].threshold.Some? && IsParent(a, i, c) && a.nodes[c].active
    ensures |values[c]| == |values[i]| + 1
  {
    var polys :| DealtBy(g, a, values, i, polys);
  }

  lemma {:induction false} RecastNext(g: Gf, a: Arena, values: seq<Bytes>, i: nat, cs: seq<nat>, polys: seq<Poly>,
                                      part: seq<Bytes>, rest: seq<Bytes>, raw: RawShares)
    requires Genuinely(g, a, values) && Presented(a, values, raw) && i < |a.nodes| && a.nodes[i].threshold.Some?
    requires cs != [] && IsParent(a, i, cs[0]) && (forall c :: c in cs ==> IsParent(a, i, c)) && NoRepeats(cs)
    requires Keeps(g, a, values, i, polys, raw)
    requires RecastBelow(g, a, values, rest, cs[1..], polys, raw)
    requires if a.nodes[cs[0]].active && !Resolves(a, cs[0], raw)
             then |values[cs[0]]| >= 1 && Recast(g, a, values, part, cs[0], ShareAt(g, polys, values[cs[0]][0]), raw)
             else part == values
    ensures RecastBelow(g, a, values, Patched(a, cs[0], part, rest), cs, polys, raw)
  {
    var c, after := cs[0], Patched(a, cs[0], part, rest);
    PatchedPresented(a, c, part, rest, raw);
    forall d | d in cs && d < |values| && a.nodes[d].active
      ensures |values[d]| >= 1 && after[d] == ShareAt(g, polys, values[d][0])
    {
      if d != c {
        NotBelowSibling(a, i, c, d);
      }
    }
    forall j | 0 <= j < |values| && Touched(a, cs, j) ensures Dealt(g, a, after, j) {
      TouchedDealt(g, a, values, i, cs, polys, part, rest, raw, j);
    }
    forall j | 0 <= j < |values| && !Touched(a, cs, j) ensures after[j] == values[j] {
      assert !Touched(a, cs[1..], j);
    }
  }

  lemma NotAboveSibling(a: Arena, i: nat, cs: seq<nat>, c: nat, j: nat)
    requires Rooted(a) && i < |a.nodes| && j < |a.nodes| && IsParent(a, i, c) && forall d :: d in cs ==> IsParent(a, i, d)
    requires Touched(a, cs, j)
    ensures c !in a.nodes[j].children
  {
    if c in a.nodes[j].children {
      assert IsParent(a, j, c);
      var d :| d in cs && d < |a.nodes| && a.nodes[d].active && Above(a, d, j);
      AboveIsNotBelow(a, d, j);
    }
  }

  lemma {:induction false} TouchedDealt(g: Gf, a: Arena, values: seq<Bytes>, i: nat, cs: seq<nat>, polys: seq<Poly>,
                                        part: seq<Bytes>, rest: seq<Bytes>, raw: RawShares, j: nat)
    requires Genuinely(g, a, values) && i < |a.nodes| && NoRepeats(cs)
    requires cs != [] && IsParent(a, i, cs[0]) && forall c :: c in cs ==> IsParent(a, i, c)
    requires RecastBelow(g, a, values, rest, cs[1..], polys, raw) && j < |values| && Touched(a, cs, j)
    requires |part| == |values|
    requires part == values || forall j :: 0 <= j < |values| && Above(a, cs[0], j) ==> Dealt(g, a, part, j)
    ensures Dealt(g, a, Patched(a, cs[0], part, rest), j)
  {
    var c := cs[0];
    if Above(a, c, j) {
      PatchedDealt(g, a, c, part, rest, j);
    } else {
      assert Touched(a, cs[1..], j);
      NotAboveSibling(a, i, cs[1..], c, j);
      PatchedDealt(g, a, c, part, rest, j);
    }
  }

  lemma {:induction false} RecastSplit(g: Gf, a: Arena, values: seq<Bytes>, mid: seq<Bytes>, i: nat, v: Bytes, polys: seq<Poly>,
                                       raw: RawShares)
    requires Genuinely(g, a, values) && i < |a.nodes| && a.nodes[i].threshold.Some? && |v| == |values[i]|
    requires Deals(polys, a.nodes[i].threshold.value, v) && RecastBelow(g, a, values, mid, a.nodes[i].children, polys, raw)
    ensures Recast(g, a, values, mid[i := v], i, v, raw)
  {
    var after, cs := mid[i := v], a.nodes[i].children;
    NewDealt(g, a, values, mid, i, v, polys, raw);
    forall j | 0 <= j < |values| && !Above(a, i, j) ensures after[j] == values[j] {
      if Touched(a, cs, j) {
        var c :| c in cs && c < |a.nodes| && a.nodes[c].active && Above(a, c, j);
        ChildWithin(a, i, c, j);
      }
    }
    forall j | 0 <= j < |values| && Above(a, i, j) ensures Dealt(g, a, after, j) {
      if j != i {
        InnerDealt(g, a, values, mid, i, v, polys, raw, j);
      }
    }
  }

  lemma NewDealt(g: Gf, a: Arena, values: seq<Bytes>, mid: seq<Bytes>, i: nat, v: Bytes, polys: seq<Poly>, raw: RawShares)
    requires Genuinely(g, a, values) && i < |a.nodes| && a.nodes[i].threshold.Some? && |v| == |values[i]|
    requires Deals(polys, a.nodes[i].threshold.value, v) && RecastBelow(g, a, values, mid, a.nodes[i].children, polys, raw)
    ensures Dealt(g, a, mid[i := v], i)
  {
    var was :| DealtBy(g, a, values, i, was);
    forall c | c in a.nodes[i].children && a.nodes[c].active
      ensures c != i && mid[c] == ShareAt(g, polys, values[c][0]) && values[c][0] != 0
    {
      assert IsParent(a, i, c);
    }
    assert DealtBy(g, a, mid[i := v], i, polys);
  }

  lemma {:induction false} InnerDealt(g: Gf, a: Arena, values: seq<Bytes>, mid: seq<Bytes>, i: nat, v: Bytes, polys: seq<Poly>,
                                      raw: RawShares, j: nat)
    requires Genuinely(g, a, values) && i < |a.nodes| && a.nodes[i].threshold.Some?
    requires RecastBelow(g, a, values, mid, a.nodes[i].children, polys, raw)
    requires j < |a.nodes| && Above(a, i, j) && j != i
    ensures Dealt(g, a, mid[i := v], j)
  {
    var cs := a.nodes[i].children;
    AboveIsNotBelow(a, i, j);
    forall e | e in a.nodes[j].children ensures e != i && (Touched(a, cs, e) <==> Touched(a, cs, j)) {
      assert IsParent(a, j, e);
      NotBelowItself(a, cs, i, j, e);
    }
    if Touched(a, cs, j) {
      DealtAlike(g, a, mid, mid[i := v], j);
    } else {
      DealtAlike(g, a, values, mid[i := v], j);
    }
  }

  /** A child of a node properly below i is touched with its parent. */
  lemma NotBelowItself(a: Arena, cs: seq<nat>, i: nat, j: nat, e: nat)
    requires Rooted(a) && i < |a.nodes| && j < |a.nodes| && Above(a, i, j) && j != i && IsParent(a, j, e)
    requires forall c :: c in cs ==> IsParent(a, i, c)
    ensures e != i && (Touched(a, cs, e) <==> Touched(a, cs, j))
  {
    AboveIsNotBelow(a, i, j);
    forall c | c in cs ensures c < |a.nodes| && (Above(a, c, e) <==> Above(a, c, j)) {
      assert IsParent(a, i, c);
    }
    if Touched(a, cs, j) {
      var c :| c in cs && c < |a.nodes| && a.nodes[c].active && Above(a, c, j);
      assert Above(a, c, e);
    }
    if Touched(a, cs, e) {
      var c :| c in cs && c < |a.nodes| && a.nodes[c].active && Above(a, c, e);
      assert Above(a, c, j);
    }
  }

  // ----- the tree

  /** Other values the same tree can have, and the same entries, under a root value of the same length. */
  ghost predicate Another(g: Gf, a: Arena, values: seq<Bytes>, others: seq<Bytes>, raw: RawShares) {
    Genuinely(g, a, others) && |values| == |others| && Presented(a, others, raw) && |others[a.root]| == |values[a.root]|
  }

  /** Entries short of a quorum go with every secret of the same length. */
  lemma NoQuorumNoSecret(g: Gf, a: Arena, values: seq<Bytes>, secret: Bytes, raw: RawShares) returns (others: seq<Bytes>)
    requires Genuinely(g, a, values) && Presented(a, values, raw) && SplitsActive(a) && ParentsSplit(a)
    requires a.nodes[a.root].threshold.Some? && !Resolves(a, a.root, raw) && |secret| == |values[a.root]|
    ensures Another(g, a, values, others, raw) && others[a.root] == secret
  {
    others := RecastAt(g, a, values, a.root, secret, raw);
    forall j | 0 <= j < |a.nodes| && a.nodes[j].threshold.Some? ensures exists polys :: DealtBy(g, a, others, j, polys) {
      RootAbove(a, j);
      assert Dealt(g, a, others, j);
    }
  }

  /** The entries settle the secret if and only if they make a quorum. */
  lemma SecretIffQuorum(g: Gf, a: Arena, values: seq<Bytes>, raw: RawShares)
    requires Genuinely(g, a, values) && Presented(a, values, raw) && SplitsActive(a) && ParentsSplit(a)
    requires a.nodes[a.root].threshold.Some?
    ensures Resolves(a, a.root, raw) <==>
      forall others :: Another(g, a, values, others, raw) ==> others[a.root] == values[a.root]
  {
    if Resolves(a, a.root, raw) {
      AnswerExact(g, a, values, a.root, raw);
      forall others | Another(g, a, values, others, raw) ensures others[a.root] == values[a.root] {
        AnswerExact(g, a, others, a.root, raw);
      }
    } else {
      var secret := values[a.root];
      var polys :| DealtBy(g, a, values, a.root, polys);
      var another := secret[0 := if secret[0] == 0 then 1 else 0];
      var others := NoQuorumNoSecret(g, a, values, another, raw);
      assert others[a.root][0] != secret[0];
    }
  }

  /** From the split on, through any run of genuine edits: the entries presented settle the secret that was split if
  and only if they make a quorum of the tree as it then is. */
  lemma {:induction false} SplitRunSettlesIff(g: Gf, s: Store, spec: KeySplit.NodeSpec, secret: Bytes, tapes: int -> Tape,
                                              edits: seq<Edit>, raw: RawShares)
    requires Lawful(g) && s.rows == [] && secret != [] && spec.Split? && KeySplit.SplitTree(g, s, spec, secret, tapes).Ok?
    requires GenuineRun(g, KeySplit.SplitTree(g, s, spec, secret, tapes).value,
                        KeySplit.SplitSecrets(g, s, spec, secret, tapes), edits)
    ensures var s' := Run(g, KeySplit.SplitTree(g, s, spec, secret, tapes).value, edits);
      var values := Values(s', KeySplit.SplitSecrets(g, s, spec, secret, tapes));
      && Load(s').Ok? && Rooted(Load(s').value) && |Load(s').value.nodes| == |s'.rows| && s'.rows != []
      && (Presented(Load(s').value, values, raw) ==>
            (Resolves(Load(s').value, 0, raw) <==>
             forall others :: Another(g, Load(s').value, values, others, raw) ==> others[0] == secret))
  {
    var secrets := KeySplit.SplitSecrets(g, s, spec, secret, tapes);
    KeySplit.SplitSound(g, s, spec, secret, tapes);
    RunSettlesIff(g, KeySplit.SplitTree(g, s, spec, secret, tapes).value, secrets, edits, raw);
  }

  lemma {:induction false} RunSettlesIff(g: Gf, s: Store, secrets: Secrets, edits: seq<Edit>, raw: RawShares)
    requires Sound(g, s, secrets) && GenuineRun(g, s, secrets, edits) && s.rows[0].threshold.Some?
    ensures var s' := Run(g, s, edits);
      && Load(s').Ok? && Rooted(Load(s').value) && |Load(s').value.nodes| == |s'.rows| && s'.rows != []
      && (Presented(Load(s').value, Values(s', secrets), raw) ==>
            (Resolves(Load(s').value, 0, raw) <==>
             forall others :: Another(g, Load(s').value, Values(s', secrets), others, raw) ==>
               others[0] == Value(s.rows, secrets, 0)))
  {
    RunSound(g, s, secrets, edits);
    var s' := Run(g, s, edits);
    SoundLoads(s');
    SoundIsGenuine(g, s', secrets);
    if Presented(Load(s').value, Values(s', secrets), raw) {
      SecretIffQuorum(g, Load(s').value, Values(s', secrets), raw);
    }
  }
}
