/** The in-memory arena of a key tree (`KeyQuorumTree` in `src/key_tree.rs`): parents and
children by index, recursive reconstruction, and the walk up to the root. */
module KeyTree {
  import opened Errors
  import opened Field
  import opened Polynomials
  import opened Shamir

  datatype KeyNode = KeyNode(
    id: int,
    name: string,
    parent: Option<nat>,
    children: seq<nat>,
    threshold: Option<nat>,
    active: bool,
    hardwareKey: Option<int>,
    bridges: set<string>)

  datatype Arena = Arena(nodes: seq<KeyNode>, root: nat)

  type RawShares = map<int, Bytes>

  ghost predicate NoRepeats(s: seq<nat>) {
    forall j, k :: 0 <= j < k < |s| ==> s[j] != s[k]
  }

  predicate IsParent(a: Arena, p: nat, c: nat) {
    c < |a.nodes| && a.nodes[c].parent == Some(p)
  }

  /** Parent and children indices mirror each other, and only the root has no parent. */
  ghost predicate Linked(a: Arena) {
    && a.root < |a.nodes|
    && (forall i :: 0 <= i < |a.nodes| ==> (a.nodes[i].parent.None? <==> i == a.root))
    && (forall i :: 0 <= i < |a.nodes| && a.nodes[i].parent.Some? ==> a.nodes[i].parent.value < |a.nodes|)
    && (forall i :: 0 <= i < |a.nodes| ==> NoRepeats(a.nodes[i].children))
    && (forall i, c :: 0 <= i < |a.nodes| ==> (c in a.nodes[i].children <==> IsParent(a, i, c)))
  }

  /** Every node lies strictly below its parent. */
  ghost predicate Ranked(a: Arena, depth: seq<nat>) {
    && |depth| == |a.nodes|
    && (forall i :: 0 <= i < |depth| ==> depth[i] < |depth|)
    && (forall p: nat, c: nat :: p < |depth| && IsParent(a, p, c) ==> depth[p] < depth[c])
  }

  ghost predicate Rooted(a: Arena) {
    Linked(a) && exists depth :: Ranked(a, depth)
  }

  ghost function Depths(a: Arena): (depth: seq<nat>)
    requires Rooted(a)
    ensures Ranked(a, depth)
  {
    var depth :| Ranked(a, depth);
    depth
  }

  /** How much room there is below a node: smaller for its children. */
  ghost function Room(a: Arena, i: nat): (n: nat)
    requires Rooted(a) && i < |a.nodes|
    ensures forall c: nat :: IsParent(a, i, c) ==> |a.nodes| - Depths(a)[c] < n
  {
    |a.nodes| - Depths(a)[i]
  }

  // ----- reconstruction

  /** What `reconstruct_node` answers. */
  function Answer(g: Gf, a: Arena, i: nat, raw: RawShares): Result<Bytes>
    requires Rooted(a) && i < |a.nodes|
    decreases Room(a, i), |a.nodes[i].children| + 1
  {
    var node := a.nodes[i];
    if !node.active then Err(QuorumNotMet)
    else if node.hardwareKey.Some? then
      if node.id in raw then Ok(raw[node.id]) else Err(QuorumNotMet)
    else if node.threshold.None? then Err(QuorumNotMet)
    else
      var resolved := Gather(g, a, i, node.children, None, node.threshold.value, [], raw);
      if |resolved| < node.threshold.value then Err(QuorumNotMet)
      else Recover(g, node.threshold.value, resolved)
  }

  /** The share a child contributes, if it resolves to one that parses. */
  function Contribution(g: Gf, a: Arena, c: nat, raw: RawShares): Option<Bytes>
    requires Rooted(a) && c < |a.nodes|
    decreases Room(a, c), |a.nodes[c].children| + 2
  {
    if !a.nodes[c].active then None
    else match Answer(g, a, c, raw)
      case Ok(value) => if Parses(value) then Some(value) else None
      case Err(_) => None
  }

  /** The greedy loop over children cs of node i: stop at t shares, pass over `skip`. */
  function Gather(g: Gf, a: Arena, i: nat, cs: seq<nat>, skip: Option<nat>, t: nat, got: seq<Bytes>, raw: RawShares)
    : (r: seq<Bytes>)
    requires Rooted(a) && i < |a.nodes| && (forall c :: c in cs ==> IsParent(a, i, c)) && AllParse(got)
    ensures AllParse(r)
    decreases Room(a, i), |cs|
  {
    if cs == [] || |got| >= t then got
    else
      assert cs[0] in cs;
      var more := if skip == Some(cs[0]) then None else Contribution(g, a, cs[0], raw);
      Gather(g, a, i, cs[1..], skip, t, if more.Some? then got + [more.value] else got, raw)
  }

  /** `reconstruct_node`, with its loop. */
  method ReconstructNode(g: Gf, a: Arena, i: nat, raw: RawShares) returns (r: Result<Bytes>)
    requires Rooted(a)
    ensures i >= |a.nodes| ==> r == Err(NodeNotFound)
    ensures i < |a.nodes| ==> r == Answer(g, a, i, raw)
    decreases if i < |a.nodes| then Room(a, i) else 0
  {
    if i >= |a.nodes| {
      return Err(NodeNotFound);
    }
    var node := a.nodes[i];
    if !node.active {
      return Err(QuorumNotMet);
    }
    if node.hardwareKey.Some? {
      return if node.id in raw then Ok(raw[node.id]) else Err(QuorumNotMet);
    }
    if node.threshold.None? {
      return Err(QuorumNotMet);
    }
    var t := node.threshold.value;
    var resolved: seq<Bytes> := [];
    var k := 0;
    while k < |node.children| && |resolved| < t
      invariant 0 <= k <= |node.children| && AllParse(resolved)
      invariant Gather(g, a, i, node.children, None, t, [], raw)
             == Gather(g, a, i, node.children[k..], None, t, resolved, raw)
    {
      var c := node.children[k];
      assert IsParent(a, i, c);
      if a.nodes[c].active {
        var value := ReconstructNode(g, a, c, raw);
        if value.Ok? && Parses(value.value) {
          resolved := resolved + [value.value];
        }
      }
      assert node.children[k..][1..] == node.children[k + 1..];
      k := k + 1;
    }
    if |resolved| < t {
      return Err(QuorumNotMet);
    }
    return Recover(g, t, resolved);
  }

  /** `reconstruct`: from the root. */
  function Reconstruct(g: Gf, a: Arena, raw: RawShares): Result<Bytes>
    requires Rooted(a)
  {
    Answer(g, a, a.root, raw)
  }

  // ----- genuine values

  /** The values behind node i's children are shares of its own value: one polynomial of
  degree below the threshold per byte, active children at distinct non-zero points. */
  ghost predicate DealtBy(g: Gf, a: Arena, values: seq<Bytes>, i: nat, polys: seq<Poly>)
    requires Linked(a) && |values| == |a.nodes| && i < |a.nodes| && a.nodes[i].threshold.Some?
  {
    var active := set c | c in a.nodes[i].children && a.nodes[c].active;
    && values[i] != []
    && Deals(polys, a.nodes[i].threshold.value, values[i])
    && (forall c :: c in active ==>
          |values[c]| >= 1 && values[c][0] != 0 && values[c] == ShareAt(g, polys, values[c][0]))
    && (forall c, d :: c in active && d in active && c != d ==> values[c][0] != values[d][0])
  }

  /** A node is a leaf or a split. */
  ghost predicate Shaped(a: Arena) {
    forall i :: 0 <= i < |a.nodes| ==> (a.nodes[i].hardwareKey.Some? <==> a.nodes[i].threshold.None?)
  }

  ghost predicate Genuinely(g: Gf, a: Arena, values: seq<Bytes>) {
    && Lawful(g) && Rooted(a) && Shaped(a) && |values| == |a.nodes|
    && forall i :: 0 <= i < |a.nodes| && a.nodes[i].threshold.Some? ==>
         exists polys :: DealtBy(g, a, values, i, polys)
  }

  /** Every presented entry of a leaf is its genuine share or does not parse at all. */
  ghost predicate Presented(a: Arena, values: seq<Bytes>, raw: RawShares)
    requires |values| == |a.nodes|
  {
    forall i :: 0 <= i < |a.nodes| && a.nodes[i].hardwareKey.Some? && a.nodes[i].id in raw ==>
      raw[a.nodes[i].id] == values[i] || !Parses(raw[a.nodes[i].id])
  }

  /** The recursive quorum predicate: an active leaf with a parsable entry resolves, and so
  does an active split of which at least threshold-many children do. */
  predicate Resolves(a: Arena, i: nat, raw: RawShares)
    requires Rooted(a) && i < |a.nodes|
    decreases Room(a, i), |a.nodes[i].children| + 1
  {
    var node := a.nodes[i];
    node.active &&
    if node.hardwareKey.Some? then node.id in raw && Parses(raw[node.id])
    else node.threshold.Some? && Resolving(a, i, node.children, None, raw) >= node.threshold.value
  }

  function Resolving(a: Arena, i: nat, cs: seq<nat>, skip: Option<nat>, raw: RawShares): nat
    requires Rooted(a) && i < |a.nodes| && forall c :: c in cs ==> IsParent(a, i, c)
    decreases Room(a, i), |cs|
  {
    if cs == [] then 0
    else
      assert cs[0] in cs;
      (if skip != Some(cs[0]) && Resolves(a, cs[0], raw) then 1 else 0)
      + Resolving(a, i, cs[1..], skip, raw)
  }

  lemma OneMoreShare(g: Gf, polys: seq<Poly>, got: seq<Bytes>, s: Bytes)
    requires AllParse(got) && Genuine(g, polys, got) && Distinct(Xs(got))
    requires |s| >= 2 && s == ShareAt(g, polys, s[0]) && forall x :: x in got ==> x[0] != s[0]
    ensures Genuine(g, polys, got + [s]) && Distinct(Xs(got + [s]))
  {
    var next := got + [s];
    forall j, k | 0 <= j < k < |next| ensures Xs(next)[j] != Xs(next)[k] {
      if k == |got| {
        assert got[j] in got;
      } else {
        assert Xs(got)[j] != Xs(got)[k];
      }
    }
  }

  /** The children whose shares are asked for. */
  function Wanted(a: Arena, i: nat, skip: Option<nat>): set<nat>
    requires i < |a.nodes|
  {
    set c: nat | c in a.nodes[i].children && c < |a.nodes| && a.nodes[c].active && skip != Some(c)
  }

  /** No share gathered so far has the point of one of these children. */
  ghost predicate Unused(values: seq<Bytes>, wanted: set<nat>, cs: seq<nat>, got: seq<Bytes>) {
    && (forall c :: c in wanted ==> c < |values| && |values[c]| >= 1)
    && forall s, c :: s in got && c in cs && c in wanted ==> |s| >= 1 && s[0] != values[c][0]
  }

  lemma NextUnused(values: seq<Bytes>, wanted: set<nat>, cs: seq<nat>, got: seq<Bytes>, next: seq<Bytes>)
    requires Unused(values, wanted, cs, got) && cs != [] && NoRepeats(cs)
    requires forall c, d :: c in wanted && d in wanted && c != d ==> values[c][0] != values[d][0]
    requires next == got || (cs[0] in wanted && next == got + [values[cs[0]]])
    ensures Unused(values, wanted, cs[1..], next)
  {
    forall s, d | s in next && d in cs[1..] && d in wanted ensures |s| >= 1 && s[0] != values[d][0] {
      assert d in cs;
      if s !in got {
        var k :| 0 <= k < |cs[1..]| && cs[1..][k] == d;
        assert cs[0] != cs[k + 1];
      }
    }
  }

  /** With the first child's answer in hand, what has been gathered stays in order. */
  lemma GatherStep(g: Gf, a: Arena, values: seq<Bytes>, i: nat, polys: seq<Poly>,
                   cs: seq<nat>, skip: Option<nat>, got: seq<Bytes>, more: Option<Bytes>, next: seq<Bytes>)
    requires Linked(a) && |values| == |a.nodes| && i < |a.nodes| && a.nodes[i].threshold.Some?
    requires DealtBy(g, a, values, i, polys)
    requires cs != [] && cs[0] in a.nodes[i].children && NoRepeats(cs)
    requires AllParse(got) && Genuine(g, polys, got) && Distinct(Xs(got)) && Unused(values, Wanted(a, i, skip), cs, got)
    requires cs[0] < |a.nodes|
    requires more.Some? ==> cs[0] in Wanted(a, i, skip) && Parses(values[cs[0]]) && more.value == values[cs[0]]
    requires next == if more.Some? then got + [more.value] else got
    ensures AllParse(next) && Genuine(g, polys, next) && Distinct(Xs(next)) && Unused(values, Wanted(a, i, skip), cs[1..], next)
  {
    NextUnused(values, Wanted(a, i, skip), cs, got, next);
    if more.Some? {
      assert cs[0] in cs;
      OneMoreShare(g, polys, got, more.value);
    }
  }

  /** The gathered shares are genuine, at distinct points, and as many as the quorum
  predicate counts (but no more than t). */
  lemma {:induction false} GatherExact(g: Gf, a: Arena, values: seq<Bytes>, i: nat, polys: seq<Poly>,
      cs: seq<nat>, skip: Option<nat>, t: nat, got: seq<Bytes>, raw: RawShares)
    requires Genuinely(g, a, values) && Presented(a, values, raw)
    requires i < |a.nodes| && a.nodes[i].threshold.Some? && DealtBy(g, a, values, i, polys)
    requires (forall c :: c in cs ==> c in a.nodes[i].children) && NoRepeats(cs)
    requires AllParse(got) && Genuine(g, polys, got) && Distinct(Xs(got)) && |got| <= t
    requires Unused(values, Wanted(a, i, skip), cs, got)
    ensures var r := Gather(g, a, i, cs, skip, t, got, raw);
      && Genuine(g, polys, r) && Distinct(Xs(r))
      && |r| == (if |got| + Resolving(a, i, cs, skip, raw) < t then |got| + Resolving(a, i, cs, skip, raw) else t)
    decreases Room(a, i), |cs|
  {
    if cs != [] && |got| < t {
      var c := cs[0];
      assert IsParent(a, i, c);
      AnswerExact(g, a, values, c, raw);
      var more := if skip == Some(c) then None else Contribution(g, a, c, raw);
      var next := if more.Some? then got + [more.value] else got;
      GatherStep(g, a, values, i, polys, cs, skip, got, more, next);
      GatherExact(g, a, values, i, polys, cs[1..], skip, t, next, raw);
    }
  }

  /** Exact quorum: a split answers its dealt value when it resolves and `QuorumNotMet`
  otherwise; a leaf answers its entry. Whichever children the greedy loop picks. */
  lemma {:induction false} AnswerExact(g: Gf, a: Arena, values: seq<Bytes>, i: nat, raw: RawShares)
    requires Genuinely(g, a, values) && Presented(a, values, raw) && i < |a.nodes|
    ensures a.nodes[i].threshold.Some? ==>
      Answer(g, a, i, raw) == if Resolves(a, i, raw) then Ok(values[i]) else Err(QuorumNotMet)
    ensures a.nodes[i].threshold.None? ==>
      Answer(g, a, i, raw) == if a.nodes[i].active && a.nodes[i].id in raw then Ok(raw[a.nodes[i].id]) else Err(QuorumNotMet)
    ensures Resolves(a, i, raw) ==> Answer(g, a, i, raw) == Ok(values[i])
    ensures i != a.root && a.nodes[a.nodes[i].parent.value].threshold.Some? ==>
      Contribution(g, a, i, raw) == if Resolves(a, i, raw) then Some(values[i]) else None
    decreases Room(a, i), |a.nodes[i].children| + 1
  {
    var node := a.nodes[i];
    if node.threshold.Some? {
      var polys :| DealtBy(g, a, values, i, polys);
      var t := node.threshold.value;
      GatherExact(g, a, values, i, polys, node.children, None, t, [], raw);
      var r := Gather(g, a, i, node.children, None, t, [], raw);
      if |r| >= t {
        assert |polys[0]| == t;
        RecoverGenuine(g, polys, t, values[i], r);
      }
    }
    if i != a.root && node.active {
      var p := node.parent.value;
      if a.nodes[p].threshold.Some? {
        var polys :| DealtBy(g, a, values, p, polys);
        assert IsParent(a, p, i);
        assert Parses(values[i]);
      }
    }
  }

  // ----- from an inner node up to the root

  /** `reconstruct_up_to_root`, one parent at a time: the value of node idx joins what its
  active siblings resolve to. */
  function Climb(g: Gf, a: Arena, idx: nat, value: Bytes, raw: RawShares): Result<Bytes>
    requires Rooted(a) && idx < |a.nodes|
    decreases Depths(a)[idx]
  {
    if a.nodes[idx].parent.None? then Ok(value)
    else
      var p := a.nodes[idx].parent.value;
      assert IsParent(a, p, idx);
      if a.nodes[p].threshold.None? then Err(QuorumNotMet)
      else
        var t := a.nodes[p].threshold.value;
        var resolved := Gather(g, a, p, a.nodes[p].children, Some(idx), t, if Parses(value) then [value] else [], raw);
        if |resolved| < t then Err(QuorumNotMet)
        else match Recover(g, t, resolved)
          case Ok(v) => Climb(g, a, p, v, raw)
          case Err(e) => Err(e)
  }

  function UpToRoot(g: Gf, a: Arena, from: nat, raw: RawShares): Result<Bytes>
    requires Rooted(a) && from < |a.nodes|
  {
    match Answer(g, a, from, raw)
    case Ok(value) => Climb(g, a, from, value, raw)
    case Err(e) => Err(e)
  }

  /** The loop over the active siblings of node idx. */
  method GatherSiblings(g: Gf, a: Arena, p: nat, idx: nat, t: nat, first: seq<Bytes>, raw: RawShares)
    returns (resolved: seq<Bytes>)
    requires Rooted(a) && p < |a.nodes| && AllParse(first)
    ensures AllParse(resolved) && resolved == Gather(g, a, p, a.nodes[p].children, Some(idx), t, first, raw)
  {
    var cs := a.nodes[p].children;
    resolved := first;
    var k := 0;
    while k < |cs| && |resolved| < t
      invariant 0 <= k <= |cs| && AllParse(resolved)
      invariant Gather(g, a, p, cs, Some(idx), t, first, raw) == Gather(g, a, p, cs[k..], Some(idx), t, resolved, raw)
    {
      var c := cs[k];
      assert IsParent(a, p, c);
      if c != idx && a.nodes[c].active {
        var sibling := ReconstructNode(g, a, c, raw);
        if sibling.Ok? && Parses(sibling.value) {
          resolved := resolved + [sibling.value];
        }
      }
      assert cs[k..][1..] == cs[k + 1..];
      k := k + 1;
    }
  }

  /** `reconstruct_up_to_root`, climbing one parent at a time. */
  method ReconstructUpToRoot(g: Gf, a: Arena, from: nat, raw: RawShares) returns (r: Result<Bytes>)
    requires Rooted(a)
    ensures r == if from < |a.nodes| then UpToRoot(g, a, from, raw) else Err(NodeNotFound)
  {
    r := ReconstructNode(g, a, from, raw);
    if r.Err? {
      return;
    }
    var value := r.value;
    var idx: nat := from;
    while a.nodes[idx].parent.Some?
      invariant from < |a.nodes| && idx < |a.nodes|
      invariant UpToRoot(g, a, from, raw) == Climb(g, a, idx, value, raw)
      decreases Depths(a)[idx]
    {
      var p := a.nodes[idx].parent.value;
      assert IsParent(a, p, idx);
      if a.nodes[p].threshold.None? {
        return Err(QuorumNotMet);
      }
      var t := a.nodes[p].threshold.value;
      var resolved := GatherSiblings(g, a, p, idx, t, if Parses(value) then [value] else [], raw);
      if |resolved| < t {
        return Err(QuorumNotMet);
      }
      var next := Recover(g, t, resolved);
      if next.Err? {
        return next;
      }
      value, idx := next.value, p;
    }
    return Ok(value);
  }

  /** Node i answers at all: an active leaf with any entry, or a split that resolves. */
  predicate Answers(a: Arena, i: nat, raw: RawShares)
    requires Rooted(a) && i < |a.nodes|
  {
    if a.nodes[i].hardwareKey.Some? then a.nodes[i].active && a.nodes[i].id in raw
    else Resolves(a, i, raw)
  }

  /** x is i or above it. */
  predicate Above(a: Arena, x: nat, i: nat)
    requires Rooted(a) && i < |a.nodes|
    decreases Depths(a)[i]
  {
    x == i ||
    match a.nodes[i].parent
    case None => false
    case Some(p) => assert IsParent(a, p, i); Above(a, x, p)
  }

  lemma {:induction false} CountWithout(a: Arena, i: nat, cs: seq<nat>, c: nat, raw: RawShares)
    requires Rooted(a) && i < |a.nodes| && NoRepeats(cs) && c in cs
    requires forall d :: d in cs ==> IsParent(a, i, d)
    ensures Resolving(a, i, cs, None, raw)
         == Resolving(a, i, cs, Some(c), raw) + if Resolves(a, c, raw) then 1 else 0
  {
    assert cs[0] in cs;
    if c == cs[0] {
      NotThere(a, i, cs[1..], c, raw);
    } else {
      CountWithout(a, i, cs[1..], c, raw);
    }
  }

  lemma {:induction false} NotThere(a: Arena, i: nat, cs: seq<nat>, c: nat, raw: RawShares)
    requires Rooted(a) && i < |a.nodes| && c !in cs
    requires forall d :: d in cs ==> IsParent(a, i, d)
    ensures Resolving(a, i, cs, None, raw) == Resolving(a, i, cs, Some(c), raw)
  {
    if cs != [] {
      NotThere(a, i, cs[1..], c, raw);
    }
  }

  ghost predicate SplitsActive(a: Arena) {
    forall i :: 0 <= i < |a.nodes| && a.nodes[i].threshold.Some? ==> a.nodes[i].active
  }

  ghost predicate ResolveAbove(a: Arena, i: nat, raw: RawShares)
    requires Rooted(a) && i < |a.nodes|
  {
    forall x :: 0 <= x < |a.nodes| && x != i && Above(a, x, i) ==> Resolves(a, x, raw)
  }

  /** One step up: with the value of idx in hand, the parent's value is recovered exactly
  when the parent resolves. */
  lemma {:induction false} ClimbStep(g: Gf, a: Arena, values: seq<Bytes>, idx: nat, value: Bytes, raw: RawShares)
    requires Genuinely(g, a, values) && Presented(a, values, raw) && SplitsActive(a)
    requires idx < |a.nodes| && idx != a.root && a.nodes[a.nodes[idx].parent.value].threshold.Some?
    requires a.nodes[idx].active && (Resolves(a, idx, raw) <==> Parses(value)) && (Parses(value) ==> value == values[idx])
    ensures Climb(g, a, idx, value, raw)
         == (var p := a.nodes[idx].parent.value;
             if Resolves(a, p, raw) then Climb(g, a, p, values[p], raw) else Err(QuorumNotMet))
  {
    var p := a.nodes[idx].parent.value;
    assert IsParent(a, p, idx);
    var t, cs := a.nodes[p].threshold.value, a.nodes[p].children;
    var polys :| DealtBy(g, a, values, p, polys);
    var got := if Parses(value) then [value] else [];
    assert |polys[0]| == t;
    assert Xs(got) == if Parses(value) then [value[0]] else [];
    GatherExact(g, a, values, p, polys, cs, Some(idx), t, got, raw);
    CountWithout(a, p, cs, idx, raw);
    var resolved := Gather(g, a, p, cs, Some(idx), t, got, raw);
    if |resolved| >= t {
      RecoverGenuine(g, polys, t, values[p], resolved);
    }
  }

  lemma {:induction false} ClimbExact(g: Gf, a: Arena, values: seq<Bytes>, idx: nat, value: Bytes, raw: RawShares)
    requires Genuinely(g, a, values) && Presented(a, values, raw) && SplitsActive(a)
    requires idx < |a.nodes| && idx != a.root && ParentsSplit(a)
    requires a.nodes[idx].active && (Resolves(a, idx, raw) <==> Parses(value)) && (Parses(value) ==> value == values[idx])
    ensures Climb(g, a, idx, value, raw)
         == if ResolveAbove(a, idx, raw) then Ok(values[a.root]) else Err(QuorumNotMet)
    decreases Depths(a)[idx]
  {
    var p := a.nodes[idx].parent.value;
    assert IsParent(a, p, idx);
    ClimbStep(g, a, values, idx, value, raw);
    ResolveAboveStep(a, idx, raw);
    if Resolves(a, p, raw) {
      if p != a.root {
        var pp := a.nodes[p].parent.value;
        var polys :| DealtBy(g, a, values, pp, polys);
        assert IsParent(a, pp, p);
        ClimbExact(g, a, values, p, values[p], raw);
      }
    }
  }

  lemma {:induction false} ResolveAboveStep(a: Arena, i: nat, raw: RawShares)
    requires Rooted(a) && i < |a.nodes| && i != a.root
    ensures ResolveAbove(a, i, raw)
       <==> Resolves(a, a.nodes[i].parent.value, raw) && ResolveAbove(a, a.nodes[i].parent.value, raw)
  {
    var p := a.nodes[i].parent.value;
    assert IsParent(a, p, i);
    assert Above(a, p, i);
    forall x: nat | x < |a.nodes| && Above(a, x, p) ensures x != i && Above(a, x, i) {
      AboveIsNotBelow(a, x, p);
    }
  }

  /** Only splits have children. */
  ghost predicate ParentsSplit(a: Arena)
    requires Linked(a)
  {
    forall i :: 0 <= i < |a.nodes| && i != a.root ==> a.nodes[a.nodes[i].parent.value].threshold.Some?
  }

  lemma {:induction false} AboveIsNotBelow(a: Arena, x: nat, i: nat)
    requires Rooted(a) && i < |a.nodes| && Above(a, x, i)
    ensures x < |a.nodes| && Depths(a)[x] <= Depths(a)[i] && (x != i ==> Depths(a)[x] < Depths(a)[i])
    decreases Depths(a)[i]
  {
    if x != i {
      var p := a.nodes[i].parent.value;
      assert IsParent(a, p, i);
      AboveIsNotBelow(a, x, p);
    }
  }

  /** Starting at any node of a tree with a split root: success exactly when that node answers and
  all its proper ancestors resolve, and then the result is what `reconstruct` gives. */
  lemma UpToRootExact(g: Gf, a: Arena, values: seq<Bytes>, from: nat, raw: RawShares)
    requires Genuinely(g, a, values) && Presented(a, values, raw) && SplitsActive(a) && ParentsSplit(a)
    requires from < |a.nodes| && a.nodes[a.root].threshold.Some?
    ensures UpToRoot(g, a, from, raw).Ok? <==> Answers(a, from, raw) && ResolveAbove(a, from, raw)
    ensures UpToRoot(g, a, from, raw).Ok? ==>
      UpToRoot(g, a, from, raw) == Reconstruct(g, a, raw) == Ok(values[a.root])
    ensures UpToRoot(g, a, from, raw).Err? ==> UpToRoot(g, a, from, raw).error == QuorumNotMet
  {
    AnswerExact(g, a, values, from, raw);
    if from == a.root {
      NothingAboveRoot(a, raw);
    } else if Answer(g, a, from, raw).Ok? {
      var value := Answer(g, a, from, raw).value;
      var p := a.nodes[from].parent.value;
      assert IsParent(a, p, from);
      var polys :| DealtBy(g, a, values, p, polys);
      ClimbExact(g, a, values, from, value, raw);
      if UpToRoot(g, a, from, raw).Ok? {
        RootAbove(a, from);
        AnswerExact(g, a, values, a.root, raw);
      }
    }
  }

  lemma {:induction false} NothingAboveRoot(a: Arena, raw: RawShares)
    requires Rooted(a)
    ensures ResolveAbove(a, a.root, raw)
  {
  }

  lemma {:induction false} RootAbove(a: Arena, i: nat)
    requires Rooted(a) && i < |a.nodes|
    ensures Above(a, a.root, i)
    ensures a.nodes[a.root].threshold.None? && ParentsSplit(a) ==> i == a.root
    decreases Depths(a)[i]
  {
    if i != a.root {
      var p := a.nodes[i].parent.value;
      assert IsParent(a, p, i);
      RootAbove(a, p);
    }
  }

  // ----- lowest common ancestor

  /** The path from i up to the root. */
  function PathUp(a: Arena, i: nat): (path: seq<nat>)
    requires Rooted(a) && i < |a.nodes|
    ensures |path| > 0 && path[0] == i
    decreases Depths(a)[i]
  {
    match a.nodes[i].parent
    case None => [i]
    case Some(p) => assert IsParent(a, p, i); [i] + PathUp(a, p)
  }

  lemma PathGrows(path: seq<nat>, curr: nat, rest: seq<nat>)
    ensures path + ([curr] + rest) == (path + [curr]) + rest
  {
  }

  method CollectPath(a: Arena, i: nat) returns (path: seq<nat>)
    requires Rooted(a) && i < |a.nodes|
    ensures path == PathUp(a, i)
  {
    path := [];
    var curr: nat := i;
    while a.nodes[curr].parent.Some?
      invariant curr < |a.nodes| && PathUp(a, i) == path + PathUp(a, curr)
      decreases Depths(a)[curr]
    {
      var p := a.nodes[curr].parent.value;
      assert IsParent(a, p, curr);
      PathGrows(path, curr, PathUp(a, p));
      path, curr := path + [curr], p;
    }
    path := path + [curr];
  }

  lemma {:induction false} PathIsAbove(a: Arena, i: nat, x: nat)
    requires Rooted(a) && i < |a.nodes|
    ensures x in PathUp(a, i) <==> Above(a, x, i)
    decreases Depths(a)[i]
  {
    if a.nodes[i].parent.Some? {
      assert IsParent(a, a.nodes[i].parent.value, i);
      PathIsAbove(a, a.nodes[i].parent.value, x);
    }
  }

  /** The rest of a path is the path from there. */
  lemma {:induction false} PathTail(a: Arena, i: nat, k: nat)
    requires Rooted(a) && i < |a.nodes| && k < |PathUp(a, i)|
    ensures PathUp(a, i)[k] < |a.nodes| && PathUp(a, i)[k..] == PathUp(a, PathUp(a, i)[k])
    decreases Depths(a)[i]
  {
    if k > 0 {
      var p := a.nodes[i].parent.value;
      assert IsParent(a, p, i);
      PathTail(a, p, k - 1);
      assert PathUp(a, i)[k..] == PathUp(a, p)[k - 1..];
    }
  }

  /** r is above every listed node, and every node above all of them is above r. */
  ghost predicate IsLca(a: Arena, r: nat, nodes: seq<nat>)
    requires Rooted(a) && r < |a.nodes| && forall i :: i in nodes ==> i < |a.nodes|
  {
    && (forall i :: i in nodes ==> Above(a, r, i))
    && (forall x: nat :: (forall i :: i in nodes ==> Above(a, x, i)) ==> Above(a, x, r))
  }

  /** The k-th node of a path, counted from its root end. */
  function FromRoot(path: seq<nat>, k: nat): nat
    requires 1 <= k <= |path|
  {
    path[|path| - k]
  }

  ghost predicate SameFromRoot(p: seq<nat>, q: seq<nat>, n: nat) {
    n <= |p| && n <= |q| && forall k :: 1 <= k <= n ==> FromRoot(p, k) == FromRoot(q, k)
  }

  lemma {:induction false} SuffixFromRoot(a: Arena, i: nat, u: nat)
    requires Rooted(a) && i < |a.nodes| && u < |PathUp(a, i)|
    ensures PathUp(a, i)[u] < |a.nodes|
    ensures |PathUp(a, PathUp(a, i)[u])| == |PathUp(a, i)| - u
    ensures SameFromRoot(PathUp(a, i), PathUp(a, PathUp(a, i)[u]), |PathUp(a, i)| - u)
  {
    PathTail(a, i, u);
    var p, t := PathUp(a, i), PathUp(a, PathUp(a, i)[u]);
    forall k | 1 <= k <= |t| ensures FromRoot(p, k) == FromRoot(t, k) {
      assert p[u..][|t| - k] == p[|p| - k];
    }
  }

  /** Where two upward paths meet, counted from their root ends. */
  lemma CommonIsShared(a: Arena, i: nat, j: nat, x: nat) returns (n: nat)
    requires Rooted(a) && i < |a.nodes| && j < |a.nodes| && Above(a, x, i) && Above(a, x, j)
    ensures 1 <= n && SameFromRoot(PathUp(a, i), PathUp(a, j), n) && FromRoot(PathUp(a, i), n) == x
  {
    PathIsAbove(a, i, x);
    PathIsAbove(a, j, x);
    var p, q := PathUp(a, i), PathUp(a, j);
    var u :| 0 <= u < |p| && p[u] == x;
    var v :| 0 <= v < |q| && q[v] == x;
    SuffixFromRoot(a, i, u);
    SuffixFromRoot(a, j, v);
    n := |p| - u;
  }

  /** `find_lowest_common_ancestor`: compare the two paths from the root end. */
  method FindLca(a: Arena, i: nat, j: nat) returns (r: Result<nat>)
    requires Rooted(a)
    ensures i >= |a.nodes| || j >= |a.nodes| ==> r == Err(NodeNotFound)
    ensures i < |a.nodes| && j < |a.nodes| ==> r.Ok? && r.value < |a.nodes| && IsLca(a, r.value, [i, j])
  {
    if i >= |a.nodes| || j >= |a.nodes| {
      return Err(NodeNotFound);
    }
    var p := CollectPath(a, i);
    var q := CollectPath(a, j);
    var lca, k := a.root, 0;
    while k < |p| && k < |q| && FromRoot(p, k + 1) == FromRoot(q, k + 1)
      invariant SameFromRoot(p, q, k)
      invariant lca == if k == 0 then a.root else FromRoot(p, k)
    {
      k := k + 1;
      lca := FromRoot(p, k);
    }
    MeetingPointIsLca(a, i, j, k);
    return Ok(lca);
  }

  /** The path from the meeting point is the shared end of both paths. */
  lemma {:induction false} MeetingPoint(a: Arena, i: nat, j: nat, k: nat)
    requires Rooted(a) && i < |a.nodes| && j < |a.nodes| && SameFromRoot(PathUp(a, i), PathUp(a, j), k) && k >= 1
    ensures FromRoot(PathUp(a, i), k) < |a.nodes|
    ensures Above(a, FromRoot(PathUp(a, i), k), i) && Above(a, FromRoot(PathUp(a, i), k), j)
    ensures PathUp(a, FromRoot(PathUp(a, i), k)) == PathUp(a, i)[|PathUp(a, i)| - k..]
  {
    var p, q := PathUp(a, i), PathUp(a, j);
    var lca := FromRoot(p, k);
    SuffixFromRoot(a, i, |p| - k);
    assert lca in p && q[|q| - k] == lca;
    PathTail(a, i, |p| - k);
    PathIsAbove(a, i, lca);
    PathIsAbove(a, j, lca);
  }

  /** The last node two paths share, counted from the root, is the lowest common ancestor. */
  lemma {:induction false} MeetingPointIsLca(a: Arena, i: nat, j: nat, k: nat)
    requires Rooted(a) && i < |a.nodes| && j < |a.nodes| && SameFromRoot(PathUp(a, i), PathUp(a, j), k)
    requires k < |PathUp(a, i)| && k < |PathUp(a, j)| ==>
      FromRoot(PathUp(a, i), k + 1) != FromRoot(PathUp(a, j), k + 1)
    ensures k >= 1 && FromRoot(PathUp(a, i), k) < |a.nodes| && IsLca(a, FromRoot(PathUp(a, i), k), [i, j])
  {
    RootAbove(a, i);
    RootAbove(a, j);
    var one := CommonIsShared(a, i, j, a.root);
    MeetingPoint(a, i, j, k);
    forall x: nat | Above(a, x, i) && Above(a, x, j) ensures Above(a, x, FromRoot(PathUp(a, i), k)) {
      CommonAboveMeeting(a, i, j, k, x);
    }
    LcaOfTwo(a, FromRoot(PathUp(a, i), k), i, j);
  }

  lemma LcaOfTwo(a: Arena, lca: nat, i: nat, j: nat)
    requires Rooted(a) && lca < |a.nodes| && i < |a.nodes| && j < |a.nodes| && Above(a, lca, i) && Above(a, lca, j)
    requires forall x: nat :: Above(a, x, i) && Above(a, x, j) ==> Above(a, x, lca)
    ensures IsLca(a, lca, [i, j])
  {
    assert forall x :: x in [i, j] <==> x == i || x == j;
    assert i in [i, j] && j in [i, j];
  }

  /** Every common ancestor is on the shared end of the two paths, so above the meeting point. */
  lemma {:induction false} CommonAboveMeeting(a: Arena, i: nat, j: nat, k: nat, x: nat)
    requires Rooted(a) && i < |a.nodes| && j < |a.nodes| && SameFromRoot(PathUp(a, i), PathUp(a, j), k) && k >= 1
    requires k < |PathUp(a, i)| && k < |PathUp(a, j)| ==>
      FromRoot(PathUp(a, i), k + 1) != FromRoot(PathUp(a, j), k + 1)
    requires Above(a, x, i) && Above(a, x, j)
    ensures FromRoot(PathUp(a, i), k) < |a.nodes| && Above(a, x, FromRoot(PathUp(a, i), k))
  {
    MeetingPoint(a, i, j, k);
    var lca := FromRoot(PathUp(a, i), k);
    var n := CommonIsShared(a, i, j, x);
    assert FromRoot(PathUp(a, lca), n) == x;
    PathIsAbove(a, lca, x);
  }

  lemma {:induction false} AboveTransitive(a: Arena, x: nat, y: nat, i: nat)
    requires Rooted(a) && i < |a.nodes| && y < |a.nodes| && Above(a, x, y) && Above(a, y, i)
    ensures Above(a, x, i)
    decreases Depths(a)[i]
  {
    if y != i {
      assert IsParent(a, a.nodes[i].parent.value, i);
      AboveTransitive(a, x, y, a.nodes[i].parent.value);
    }
  }

  /** `find_lowest_common_ancestor_of`: fold over the list. A single index is returned
  unchecked. */
  method FindLcaOf(a: Arena, indices: seq<nat>) returns (r: Result<nat>)
    requires Rooted(a)
    ensures indices == [] ==> r == Err(NodeNotFound)
    ensures |indices| == 1 ==> r == Ok(indices[0])
    ensures |indices| > 1 && (exists i :: i in indices && i >= |a.nodes|) ==> r == Err(NodeNotFound)
    ensures indices != [] && (forall i :: i in indices ==> i < |a.nodes|) ==>
      r.Ok? && r.value < |a.nodes| && IsLca(a, r.value, indices)
  {
    if indices == [] {
      return Err(NodeNotFound);
    }
    var acc: nat, k := indices[0], 1;
    assert indices[..1] == [acc] && acc in [acc];
    while k < |indices|
      invariant 1 <= k <= |indices|
      invariant k == 1 ==> acc == indices[0]
      invariant k > 1 ==> forall i :: i in indices[..k] ==> i < |a.nodes|
      invariant (forall i :: i in indices[..k] ==> i < |a.nodes|) ==> acc < |a.nodes| && IsLca(a, acc, indices[..k])
    {
      var step := FindLca(a, acc, indices[k]);
      assert indices[..k + 1] == indices[..k] + [indices[k]];
      if step.Err? {
        assert indices[0] in indices && indices[k] in indices;
        return Err(NodeNotFound);
      }
      assert k == 1 ==> indices[..1] == [indices[0]];
      LcaStep(a, acc, step.value, indices[..k], indices[k]);
      acc, k := step.value, k + 1;
    }
    assert indices[..k] == indices;
    return Ok(acc);
  }

  lemma LcaStep(a: Arena, acc: nat, r: nat, nodes: seq<nat>, j: nat)
    requires Rooted(a) && acc < |a.nodes| && r < |a.nodes| && j < |a.nodes| && nodes != []
    requires (forall i :: i in nodes ==> i < |a.nodes|) && IsLca(a, acc, nodes) && IsLca(a, r, [acc, j])
    ensures IsLca(a, r, nodes + [j])
  {
    assert acc in [acc, j] && j in [acc, j];
    forall i | i in nodes + [j] ensures Above(a, r, i) {
      if i in nodes {
        AboveTransitive(a, r, acc, i);
      }
    }
    forall x: nat | forall i :: i in nodes + [j] ==> Above(a, x, i) ensures Above(a, x, r) {
      forall i | i in nodes ensures Above(a, x, i) {
        assert i in nodes + [j];
      }
      assert j in nodes + [j];
      assert forall i :: i in [acc, j] ==> Above(a, x, i);
    }
  }
}
