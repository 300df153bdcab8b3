/** The key-tree tables as an object whose methods update them in place, each proved to
do exactly what the function of the same name in `KeyStore` says. */
module KeyTable {
  import opened Errors
  import opened Field
  import Lists
  import opened Polynomials
  import opened Shamir
  import opened Pss
  import opened KeyTree
  import opened KeyStore
  import opened KeySplit

  // ----- loading, in the three passes of `KeyQuorumTree::load`

  function BareNode(row: Row): KeyNode {
    KeyNode(row.id, row.name, None, [], row.threshold, row.active, row.hardwareKey, {})
  }

  /** The first pass: one bare node per row, unless two rows share a name. */
  method CollectNodes(rows: seq<Row>) returns (r: Result<seq<KeyNode>>)
    ensures r.Err? <==> exists i, j :: 0 <= i < j < |rows| && rows[i].name == rows[j].name
    ensures r.Err? ==> r.error == DuplicateNodeLabel
    ensures r.Ok? ==> |r.value| == |rows| && forall i :: 0 <= i < |rows| ==> r.value[i] == BareNode(rows[i])
  {
    var nodes: seq<KeyNode> := [];
    var seen: set<string> := {};
    var i := 0;
    while i < |rows|
      invariant 0 <= i <= |rows| && |nodes| == i
      invariant forall j :: 0 <= j < i ==> rows[j].name in seen
      invariant forall name :: name in seen ==> exists j :: 0 <= j < i && rows[j].name == name
      invariant forall j, k :: 0 <= j < k < i ==> rows[j].name != rows[k].name
      invariant forall j :: 0 <= j < i ==> nodes[j] == BareNode(rows[j])
    {
      var row := rows[i];
      if row.name in seen {
        return Err(DuplicateNodeLabel);
      }
      seen := seen + {row.name};
      nodes := nodes + [BareNode(row)];
      i := i + 1;
    }
    return Ok(nodes);
  }

  /** Node i once the first j rows have been linked to their parents. */
  function LinkedNode(rows: seq<Row>, i: nat, j: nat): KeyNode
    requires i < |rows| && j <= |rows|
  {
    BareNode(rows[i]).(
      parent := if j <= i || rows[i].parent.None? then None else IndexOfId(rows, rows[i].parent.value),
      children := ChildrenBelow(rows, i, j))
  }

  /** The nodes after the first i rows have been linked. */
  ghost predicate LinkedTo(rows: seq<Row>, nodes: seq<KeyNode>, i: nat) {
    i <= |rows| == |nodes| && forall j :: 0 <= j < |rows| ==> nodes[j] == LinkedNode(rows, j, i)
  }

  lemma LinkRoot(rows: seq<Row>, nodes: seq<KeyNode>, i: nat)
    requires i < |rows| && rows[i].parent.None? && LinkedTo(rows, nodes, i)
    ensures LinkedTo(rows, nodes, i + 1)
  {
  }

  /** Linking row i: its own parent, and one more child for that parent. */
  lemma {:induction false} LinkStep(rows: seq<Row>, nodes: seq<KeyNode>, i: nat, p: nat)
    requires Ordered(rows) && |nodes| == |rows| && i < |rows| && p < |rows| && rows[i].parent.Some?
    requires IndexOfId(rows, rows[i].parent.value) == Some(p) && rows[p].id == rows[i].parent.value
    requires LinkedTo(rows, nodes, i)
    ensures var mid := nodes[i := nodes[i].(parent := Some(p))];
      var linked := mid[p := mid[p].(children := mid[p].children + [i])];
      LinkedTo(rows, linked, i + 1)
  {
    forall j | 0 <= j < |rows| ensures rows[i].parent == Some(rows[j].id) <==> j == p {
    }
  }

  ghost predicate NoOrphanBefore(rows: seq<Row>, i: nat)
    requires i <= |rows|
  {
    forall j :: 0 <= j < i && rows[j].parent.Some? ==> IndexOfId(rows, rows[j].parent.value).Some?
  }

  /** Record p as the parent of row i, and i as a child of p. */
  method LinkBelow(rows: seq<Row>, nodes: seq<KeyNode>, i: nat, p: nat) returns (linked: seq<KeyNode>)
    requires Ordered(rows) && i < |rows| && rows[i].parent.Some? && IndexOfId(rows, rows[i].parent.value) == Some(p)
    requires LinkedTo(rows, nodes, i)
    ensures LinkedTo(rows, linked, i + 1)
  {
    IndexOfIdFinds(rows, rows[i].parent.value);
    LinkStep(rows, nodes, i, p);
    linked := nodes[i := nodes[i].(parent := Some(p))];
    linked := linked[p := linked[p].(children := linked[p].children + [i])];
  }

  /** The second pass: every row tells its parent about itself. */
  method LinkNodes(rows: seq<Row>, bare: seq<KeyNode>) returns (r: Result<seq<KeyNode>>)
    requires Ordered(rows) && |bare| == |rows| && forall i :: 0 <= i < |rows| ==> bare[i] == BareNode(rows[i])
    ensures r.Err? <==> Orphans(rows)
    ensures r.Err? ==> r.error == NodeNotFound
    ensures r.Ok? ==> |r.value| == |rows| && forall i :: 0 <= i < |rows| ==> r.value[i] == LinkedNode(rows, i, |rows|)
  {
    var nodes := bare;
    var i := 0;
    while i < |rows|
      invariant 0 <= i <= |rows|
      invariant NoOrphanBefore(rows, i) && LinkedTo(rows, nodes, i)
    {
      if rows[i].parent.Some? {
        var p := IndexOfId(rows, rows[i].parent.value);
        if p.None? {
          return Err(NodeNotFound);
        }
        nodes := LinkBelow(rows, nodes, i, p.value);
      } else {
        LinkRoot(rows, nodes, i);
      }
      i := i + 1;
    }
    return Ok(nodes);
  }

  /** The nodes once these whitelist rows have been read. */
  ghost predicate Bridged(rows: seq<Row>, linked: seq<KeyNode>, nodes: seq<KeyNode>, w: set<(int, string)>) {
    && |linked| == |nodes| == |rows|
    && forall i :: 0 <= i < |rows| ==> nodes[i] == linked[i].(bridges := BridgesOf(w, rows[i].id))
  }

  function WithBridge(rows: seq<Row>, nodes: seq<KeyNode>, e: (int, string)): seq<KeyNode>
    requires |nodes| == |rows|
  {
    IndexOfIdFinds(rows, e.0);
    match IndexOfId(rows, e.0)
    case None => nodes
    case Some(i) => nodes[i := nodes[i].(bridges := nodes[i].bridges + {e.1})]
  }

  lemma BridgesStep(rows: seq<Row>, linked: seq<KeyNode>, nodes: seq<KeyNode>, w: set<(int, string)>, e: (int, string))
    requires Ordered(rows) && Bridged(rows, linked, nodes, w)
    ensures Bridged(rows, linked, WithBridge(rows, nodes, e), w + {e})
  {
    IndexOfIdFinds(rows, e.0);
    forall i | 0 <= i < |rows|
      ensures WithBridge(rows, nodes, e)[i] == linked[i].(bridges := BridgesOf(w + {e}, rows[i].id))
    {
      IndexOfIdIs(rows, i);
      assert BridgesOf(w + {e}, rows[i].id)
          == if e.0 == rows[i].id then BridgesOf(w, rows[i].id) + {e.1} else BridgesOf(w, rows[i].id);
    }
  }

  /** The third pass: whitelist rows of this key's nodes. */
  method AddBridges(s: Store, linked: seq<KeyNode>) returns (nodes: seq<KeyNode>)
    requires Ordered(s.rows) && |linked| == |s.rows|
    requires forall i :: 0 <= i < |s.rows| ==> linked[i] == LinkedNode(s.rows, i, |s.rows|)
    ensures |nodes| == |s.rows| && forall i :: 0 <= i < |s.rows| ==> nodes[i] == LoadNode(s, i)
  {
    nodes := linked;
    var todo := s.whitelist;
    while todo != {}
      invariant todo <= s.whitelist
      invariant Bridged(s.rows, linked, nodes, s.whitelist - todo)
      decreases todo
    {
      var e :| e in todo;
      BridgesStep(s.rows, linked, nodes, s.whitelist - todo, e);
      IndexOfIdFinds(s.rows, e.0);
      var i := IndexOfId(s.rows, e.0);
      assert s.whitelist - (todo - {e}) == (s.whitelist - todo) + {e};
      todo := todo - {e};
      if i.Some? {
        nodes := nodes[i.value := nodes[i.value].(bridges := nodes[i.value].bridges + {e.1})];
      }
    }
    assert s.whitelist - todo == s.whitelist;
  }

  method LoadArena(s: Store) returns (r: Result<Arena>)
    requires Ordered(s.rows)
    ensures r == Load(s)
  {
    if s.rows == [] {
      return Err(NodeNotFound);
    }
    var bare := CollectNodes(s.rows);
    if bare.Err? {
      return Err(bare.error);
    }
    var linked := LinkNodes(s.rows, bare.value);
    if linked.Err? {
      return Err(linked.error);
    }
    var nodes := AddBridges(s, linked.value);
    var root := 0;
    while root < |nodes| && nodes[root].parent.Some?
      invariant 0 <= root <= |nodes| && FirstRoot(s.rows, 0) == FirstRoot(s.rows, root)
    {
      root := root + 1;
    }
    if root == |nodes| {
      return Err(NodeNotFound);
    }
    assert nodes == seq(|s.rows|, i requires 0 <= i < |s.rows| => LoadNode(s, i));
    return Ok(Arena(nodes, root));
  }

  // ----- the loops of the edits

  method CollectActiveLeaves(rows: seq<Row>, cs: seq<nat>, skip: Option<nat>) returns (r: Option<seq<nat>>)
    requires In(rows, cs)
    ensures r == ActiveLeaves(rows, cs, skip)
  {
    var leaves: seq<nat> := [];
    var k := 0;
    while k < |cs|
      invariant 0 <= k <= |cs| && ActiveLeaves(rows, cs[..k], skip) == Some(leaves)
    {
      var c := cs[k];
      assert cs[..k + 1][..k] == cs[..k];
      if skip != Some(c) && rows[c].active {
        if rows[c].hardwareKey.None? {
          NoneStaysNone(rows, cs, skip, k + 1);
          return None;
        }
        leaves := leaves + [c];
      }
      k := k + 1;
    }
    assert cs[..k] == cs;
    return Some(leaves);
  }

  lemma {:induction false} NoneStaysNone(rows: seq<Row>, cs: seq<nat>, skip: Option<nat>, k: nat)
    requires In(rows, cs) && k <= |cs| && ActiveLeaves(rows, cs[..k], skip).None?
    ensures ActiveLeaves(rows, cs, skip).None?
    decreases |cs|
  {
    if k < |cs| {
      assert cs[..|cs| - 1][..k] == cs[..k];
      NoneStaysNone(rows, cs[..|cs| - 1], skip, k);
    } else {
      assert cs[..k] == cs;
    }
  }

  method CollectGiven(rows: seq<Row>, leaves: seq<nat>, presented: RawShares) returns (raws: seq<Bytes>)
    requires In(rows, leaves)
    ensures raws == Given(rows, leaves, presented)
  {
    raws := [];
    var k := 0;
    while k < |leaves|
      invariant 0 <= k <= |leaves| && raws == Given(rows, leaves[..k], presented)
    {
      assert leaves[..k + 1][..k] == leaves[..k];
      var id := rows[leaves[k]].id;
      if id in presented {
        raws := raws + [presented[id]];
      }
      k := k + 1;
    }
    assert leaves[..k] == leaves;
  }

  /** The survivors' shares and keys, stopping at the first that is missing. */
  method CollectSurvivors(s: Store, leaves: seq<nat>, presented: RawShares)
    returns (r: Result<(seq<Bytes>, seq<PublicKey>)>)
    requires AllLeaves(s.rows, leaves)
    ensures r == Survivors(s, leaves, presented)
  {
    var raws: seq<Bytes>, keys: seq<PublicKey> := [], [];
    var k := 0;
    while k < |leaves|
      invariant 0 <= k <= |leaves| && Survivors(s, leaves[..k], presented) == Ok((raws, keys))
    {
      assert leaves[..k + 1][..k] == leaves[..k];
      var row := s.rows[leaves[k]];
      if row.id !in presented {
        SurvivorsErr(s, leaves, presented, k + 1);
        return Err(QuorumNotMet);
      }
      var key := ActiveKey(s, row.hardwareKey.value);
      if key.Err? {
        SurvivorsErr(s, leaves, presented, k + 1);
        return Err(key.error);
      }
      raws, keys := raws + [presented[row.id]], keys + [key.value];
      k := k + 1;
    }
    assert leaves[..k] == leaves;
    return Ok((raws, keys));
  }

  lemma {:induction false} SurvivorsErr(s: Store, leaves: seq<nat>, presented: RawShares, k: nat)
    requires AllLeaves(s.rows, leaves) && k <= |leaves| && Survivors(s, leaves[..k], presented).Err?
    ensures Survivors(s, leaves, presented) == Survivors(s, leaves[..k], presented)
    decreases |leaves|
  {
    if k < |leaves| {
      assert leaves[..|leaves| - 1][..k] == leaves[..k];
      SurvivorsErr(s, leaves[..|leaves| - 1], presented, k);
    } else {
      assert leaves[..k] == leaves;
    }
  }

  lemma {:induction false} LeafKeysErr(s: Store, leaves: seq<nat>, k: nat)
    requires AllLeaves(s.rows, leaves) && k <= |leaves| && LeafKeys(s, leaves[..k]).Err?
    ensures LeafKeys(s, leaves) == LeafKeys(s, leaves[..k])
    decreases |leaves|
  {
    if k < |leaves| {
      assert leaves[..|leaves| - 1][..k] == leaves[..k];
      LeafKeysErr(s, leaves[..|leaves| - 1], k);
    } else {
      assert leaves[..k] == leaves;
    }
  }

  /** Reseal leaf by leaf, each to its own key while that key is active. */
  method ResealActive(s: Store, leaves: seq<nat>, shares: seq<Bytes>) returns (r: Result<seq<Row>>)
    requires AllLeaves(s.rows, leaves) && |shares| == |leaves| && NoRepeats(leaves)
    ensures match LeafKeys(s, leaves)
      case Ok(keys) => r == Ok(Reseal(s.rows, leaves, keys, shares))
      case Err(e) => r == Err(e)
  {
    var rows := s.rows;
    var k := 0;
    while k < |leaves|
      invariant 0 <= k <= |leaves| && |rows| == |s.rows| && LeafKeys(s, leaves[..k]).Ok?
      invariant rows == Reseal(s.rows, leaves[..k], LeafKeys(s, leaves[..k]).value, shares[..k])
    {
      var c := leaves[k];
      assert leaves[..k + 1][..k] == leaves[..k] && shares[..k + 1][..k] == shares[..k];
      var key := ActiveKey(s, s.rows[c].hardwareKey.value);
      if key.Err? {
        LeafKeysErr(s, leaves, k + 1);
        return Err(key.error);
      }
      ghost var keys := LeafKeys(s, leaves[..k + 1]).value;
      assert keys[..k] == LeafKeys(s, leaves[..k]).value;
      rows := rows[c := rows[c].(wrapped := Some(Sealed(key.value, shares[k])))];
      k := k + 1;
    }
    assert leaves[..k] == leaves && shares[..k] == shares;
    return Ok(rows);
  }

  /** Reseal leaf by leaf to keys already looked up. */
  method ResealAll(rows: seq<Row>, leaves: seq<nat>, keys: seq<PublicKey>, shares: seq<Bytes>) returns (r: seq<Row>)
    requires In(rows, leaves) && |keys| == |shares| == |leaves|
    ensures r == Reseal(rows, leaves, keys, shares)
  {
    r := rows;
    var k := 0;
    while k < |leaves|
      invariant 0 <= k <= |leaves| && |r| == |rows| && r == Reseal(rows, leaves[..k], keys[..k], shares[..k])
    {
      assert leaves[..k + 1][..k] == leaves[..k] && keys[..k + 1][..k] == keys[..k] && shares[..k + 1][..k] == shares[..k];
      r := r[leaves[k] := r[leaves[k]].(wrapped := Some(Sealed(keys[k], shares[k])))];
      k := k + 1;
    }
    assert leaves[..k] == leaves && keys[..k] == keys && shares[..k] == shares;
  }

  /** `pss::refresh_among` over the survivors' raw shares. */
  method RefreshSurvivors(g: Gf, raws: seq<Bytes>, t: nat, tapes: Tapes) returns (r: Result<seq<Bytes>>)
    requires Lawful(g)
    ensures r == if CanRefresh(raws, t) then Ok(AbsorbAll(g, raws, RefreshSum(g, tapes, t, raws))) else Err(ShareShapeMismatch)
  {
    var shares := new Bytes[|raws|](i requires 0 <= i < |raws| => raws[i]);
    assert shares[..] == raws;
    var ok := RefreshAmong(g, shares, t, Draws(tapes, |raws|));
    if ok.Err? {
      return Err(ok.error);
    }
    assert shares[..] == AbsorbAll(g, raws, RefreshSum(g, tapes, t, raws));
    return Ok(shares[..]);
  }

  // ----- inserting a split tree

  lemma WhitelistAt(bs: seq<seq<string>>, base: int, e: (int, string))
    ensures e in WhitelistRows(bs, base) <==> exists i :: 0 <= i < |bs| && e.0 == base + i && e.1 in bs[i]
  {
  }

  lemma WhitelistConcat(a: seq<seq<string>>, b: seq<seq<string>>, base: int)
    ensures WhitelistRows(a + b, base) == WhitelistRows(a, base) + WhitelistRows(b, base + |a|)
  {
    var c := a + b;
    forall e ensures e in WhitelistRows(c, base) <==> e in WhitelistRows(a, base) + WhitelistRows(b, base + |a|) {
      WhitelistAt(a, base, e);
      WhitelistAt(b, base + |a|, e);
      WhitelistAt(c, base, e);
      if i :| 0 <= i < |c| && e.0 == base + i && e.1 in c[i] {
        assert if i < |a| then e.1 in a[i] else e.1 in b[i - |a|];
      }
      if i :| 0 <= i < |a| && e.0 == base + i && e.1 in a[i] {
        assert e.1 in c[i];
      }
      if i :| 0 <= i < |b| && e.0 == base + |a| + i && e.1 in b[i] {
        assert e.1 in c[|a| + i];
      }
    }
  }

  lemma RepeatConcat(a: seq<seq<string>>, b: seq<seq<string>>)
    ensures RepeatIn(a + b) <==> RepeatIn(a) || RepeatIn(b)
  {
    var c := a + b;
    if RepeatIn(a) {
      var i, j, k :| 0 <= i < |a| && 0 <= j < k < |a[i]| && a[i][j] == a[i][k];
      assert c[i][j] == c[i][k];
    }
    if RepeatIn(b) {
      var i, j, k :| 0 <= i < |b| && 0 <= j < k < |b[i]| && b[i][j] == b[i][k];
      assert c[|a| + i][j] == c[|a| + i][k];
    }
    if RepeatIn(c) {
      var i, j, k :| 0 <= i < |c| && 0 <= j < k < |c[i]| && c[i][j] == c[i][k];
      if i < |a| {
        assert a[i][j] == a[i][k];
      } else {
        assert b[i - |a|][j] == b[i - |a|][k];
      }
    }
  }

  /** A store with more rows and whitelist rows. */
  function Inserted(s: Store, rows: seq<Row>, w: set<(int, string)>): Store {
    s.(rows := s.rows + rows, whitelist := s.whitelist + w, nextId := s.nextId + |rows|)
  }

  predicate Below(w: set<(int, string)>, id: int) {
    forall e :: e in w ==> e.0 < id
  }

  lemma InsertedTwice(s: Store, a: seq<Row>, v: set<(int, string)>, b: seq<Row>, w: set<(int, string)>)
    ensures Inserted(Inserted(s, a, v), b, w) == Inserted(s, a + b, v + w)
  {
    Lists.Assoc(s.rows, a, b);
    assert s.whitelist + v + w == s.whitelist + (v + w);
  }

  /** The row of a split. */
  function Header(spec: NodeSpec, parent: Option<int>, id: int): Row
    requires spec.Split?
  {
    Row(id, parent, spec.name, Some(spec.threshold as nat), None, None, true)
  }

  lemma {:induction false} HeaderThenChildren(d: Dealing, spec: NodeSpec, parent: Option<int>, secret: Bytes, s: Store)
    requires Dealable(d, spec) && spec.Split?
    ensures var first := Inserted(s, [Header(spec, parent, s.nextId)], WhitelistRows([spec.bridges], s.nextId));
      var polys := Dealer(secret, spec.threshold as nat, d.tapes(s.nextId));
      Inserted(first, RowsAll(d, spec.children, 0, s.nextId, polys, first.nextId),
               WhitelistRows(BridgesAll(spec.children), first.nextId))
      == Inserted(s, Rows(d, spec, parent, secret, s.nextId), WhitelistOf(spec, s.nextId))
  {
    var id, polys := s.nextId, Dealer(secret, spec.threshold as nat, d.tapes(s.nextId));
    var header, v := [Header(spec, parent, id)], WhitelistRows([spec.bridges], id);
    var first := Inserted(s, header, v);
    var rest := RowsAll(d, spec.children, 0, id, polys, first.nextId);
    var w := WhitelistRows(BridgesAll(spec.children), first.nextId);
    InsertedTwice(s, header, v, rest, w);
    assert Rows(d, spec, parent, secret, id) == header + rest;
    assert WhitelistOf(spec, id) == v + w by {
      WhitelistConcat([spec.bridges], BridgesAll(spec.children), id);
    }
  }

  lemma NothingInserted(s: Store)
    ensures Inserted(s, [], WhitelistRows([], s.nextId)) == s
  {
    assert s.rows + [] == s.rows && WhitelistRows([], s.nextId) == {};
  }

  /** The first child's block and the blocks of the rest are the blocks of all. */
  lemma FirstThenRest(d: Dealing, cs: seq<NodeSpec>, k: nat, parent: int, polys: seq<Poly>, s: Store)
    requires DealableAll(d, cs, k) && cs != []
    ensures DealableAll(d, cs[1..], k + 1)
    ensures var first := Inserted(s, Rows(d, cs[0], Some(parent), ShareAt(d.g, polys, Point(k)), s.nextId),
                                  WhitelistOf(cs[0], s.nextId));
      Inserted(first, RowsAll(d, cs[1..], k + 1, parent, polys, first.nextId),
               WhitelistRows(BridgesAll(cs[1..]), first.nextId))
      == Inserted(s, RowsAll(d, cs, k, parent, polys, s.nextId), WhitelistRows(BridgesAll(cs), s.nextId))
  {
    var id := s.nextId;
    var a, b := Rows(d, cs[0], Some(parent), ShareAt(d.g, polys, Point(k)), id),
                RowsAll(d, cs[1..], k + 1, parent, polys, id + Size(cs[0]));
    RowsAllSplit(d, cs, k, parent, polys, id);
    WhitelistConcat(Bridges(cs[0]), BridgesAll(cs[1..]), id);
    InsertedTwice(s, a, WhitelistOf(cs[0], id), b, WhitelistRows(BridgesAll(cs[1..]), id + Size(cs[0])));
  }

  lemma {:induction false} FirstThenRestRepeats(cs: seq<NodeSpec>)
    requires cs != []
    ensures RepeatIn(BridgesAll(cs)) <==> BridgesRepeat(cs[0]) || RepeatIn(BridgesAll(cs[1..]))
  {
    RepeatConcat(Bridges(cs[0]), BridgesAll(cs[1..]));
  }

  class KeyTable {
    var rows: seq<Row>
    var hardware: map<int, HardwareKey>
    var whitelist: set<(int, string)>
    var links: set<(int, int)>
    var nextId: int

    constructor (s: Store)
      ensures State() == s
    {
      rows, hardware, whitelist, links, nextId := s.rows, s.hardware, s.whitelist, s.links, s.nextId;
    }

    function State(): Store
      reads this
    {
      Store(rows, hardware, whitelist, links, nextId)
    }

    method RebindLeaf(name: string, newKey: int, sk: SecretKey) returns (r: Result<()>)
      requires Ordered(rows)
      modifies this
      ensures match KeyStore.RebindLeaf(old(State()), name, newKey, sk)
        case Ok(s) => r == Ok(()) && State() == s
        case Err(e) => r == Err(e) && State() == old(State())
    {
      var tree := LoadArena(State());
      if tree.Err? {
        return Err(tree.error);
      }
      var k := IndexOfName(rows, name);
      if k.None? {
        return Err(NodeNotFound);
      }
      IndexOfNameFinds(rows, name);
      var row := rows[k.value];
      if !row.active || row.hardwareKey.None? {
        return Err(NodeNotFound);
      }
      var share := UnwrapLeaf(State(), k.value, sk);
      if share.Err? {
        return Err(share.error);
      }
      var key := ActiveKey(State(), newKey);
      if key.Err? {
        return Err(key.error);
      }
      rows := rows[k.value := row.(hardwareKey := Some(newKey), wrapped := Some(Sealed(key.value, share.value)))];
      return Ok(());
    }

    method AddLeafAndReshare(g: Gf, parentName: string, newName: string, newKey: int, presented: RawShares, tape: Tape)
      returns (r: Result<int>)
      requires Ordered(rows)
      modifies this
      ensures match KeyStore.AddLeaf(g, old(State()), parentName, newName, newKey, presented, tape)
        case Ok(s) => r == Ok(old(nextId)) && State() == s
        case Err(e) => r == Err(e) && State() == old(State())
    {
      if newName == "" {
        return Err(DuplicateNodeLabel);
      }
      var tree := LoadArena(State());
      if tree.Err? {
        return Err(tree.error);
      }
      if IndexOfName(rows, newName).Some? {
        return Err(DuplicateNodeLabel);
      }
      var parent := IndexOfName(rows, parentName);
      if parent.None? {
        return Err(NodeNotFound);
      }
      IndexOfNameFinds(rows, parentName);
      var p := parent.value;
      if rows[p].threshold.None? {
        return Err(CannotAddLeaf);
      }
      var active := CollectActiveLeaves(rows, Children(rows, p), None);
      if active.None? {
        return Err(CannotAddLeaf);
      }
      var leaves := active.value;
      ActiveLeavesAre(rows, Children(rows, p), None);
      var t, n := rows[p].threshold.value, |leaves| + 1;
      if n > 255 || t > n || t == 0 {
        return Err(CannotAddLeaf);
      }
      var raws := CollectGiven(rows, leaves, presented);
      if |raws| < t {
        return Err(QuorumNotMet);
      }
      var secret := RecoverSecret(g, t, raws);
      if secret.Err? {
        return Err(secret.error);
      }
      r := DealOneMore(p, leaves, newName, newKey, FreshShares(g, Dealer(secret.value, t, tape), n));
    }

    /** The part of `add_leaf_and_reshare` after the parent's value is recovered. */
    method DealOneMore(p: nat, leaves: seq<nat>, newName: string, newKey: int, shares: seq<Bytes>) returns (r: Result<int>)
      requires p < |rows| && AllLeaves(rows, leaves) && NoRepeats(leaves) && |shares| == |leaves| + 1
      modifies this
      ensures match KeyStore.DealOneMore(old(State()), p, leaves, newName, newKey, shares)
        case Ok(s) => r == Ok(old(nextId)) && State() == s
        case Err(e) => r == Err(e) && State() == old(State())
    {
      var key := ActiveKey(State(), newKey);
      if key.Err? {
        return Err(key.error);
      }
      var resealed := ResealActive(State(), leaves, shares[..|leaves|]);
      if resealed.Err? {
        return Err(resealed.error);
      }
      var row := Row(nextId, Some(rows[p].id), newName, None, Some(newKey),
                     Some(Sealed(key.value, shares[|leaves|])), true);
      rows, nextId := resealed.value + [row], nextId + 1;
      return Ok(nextId - 1);
    }

    method EvictAndRefresh(g: Gf, evictedId: int, presented: RawShares, tapes: Tapes) returns (r: Result<()>)
      requires Ordered(rows) && Lawful(g)
      modifies this
      ensures match KeyStore.Evict(g, old(State()), evictedId, presented, tapes)
        case Ok(s) => r == Ok(()) && State() == s
        case Err(e) => r == Err(e) && State() == old(State())
    {
      var tree := LoadArena(State());
      if tree.Err? {
        return Err(tree.error);
      }
      var evicted := IndexOfId(rows, evictedId);
      if evicted.None? {
        return Err(NodeNotFound);
      }
      IndexOfIdFinds(rows, evictedId);
      var e := evicted.value;
      if !rows[e].active || rows[e].hardwareKey.None? || rows[e].parent.None? {
        return Err(CannotEvict);
      }
      IndexOfIdFinds(rows, rows[e].parent.value);
      r := EvictBelowParent(g, e, IndexOfId(rows, rows[e].parent.value).value, presented, tapes);
    }

    /** The part of `evict_and_refresh` after the leaf and its parent are known. */
    method EvictBelowParent(g: Gf, e: nat, p: nat, presented: RawShares, tapes: Tapes) returns (r: Result<()>)
      requires e < |rows| && p < |rows| && Lawful(g)
      modifies this
      ensures match EvictBelow(g, old(State()), e, p, presented, tapes)
        case Ok(s) => r == Ok(()) && State() == s
        case Err(e) => r == Err(e) && State() == old(State())
    {
      if rows[p].threshold.None? || rows[p].threshold.value < 2 {
        return Err(CannotEvict);
      }
      var t := rows[p].threshold.value;
      var active := CollectActiveLeaves(rows, Children(rows, p), Some(e));
      if active.None? || |active.value| < t {
        return Err(CannotEvict);
      }
      var survivors := CollectSurvivors(State(), active.value, presented);
      if survivors.Err? {
        return Err(survivors.error);
      }
      var (raws, keys) := survivors.value;
      r := RefreshAndReseal(g, e, t, active.value, raws, keys, tapes);
    }

    /** The survivors' refreshed shares, sealed again; the evicted leaf and its bindings go. */
    method RefreshAndReseal(g: Gf, e: nat, t: nat, leaves: seq<nat>, raws: seq<Bytes>, keys: seq<PublicKey>, tapes: Tapes)
      returns (r: Result<()>)
      requires e < |rows| && Lawful(g) && In(rows, leaves) && |raws| == |keys| == |leaves|
      modifies this
      ensures match Refresh(g, old(State()), e, t, leaves, raws, keys, tapes)
        case Ok(s) => r == Ok(()) && State() == s
        case Err(e) => r == Err(e) && State() == old(State())
    {
      var refreshed := RefreshSurvivors(g, raws, t, tapes);
      if refreshed.Err? {
        return Err(refreshed.error);
      }
      var unbound := WithoutBindings(State(), e);
      var off := rows[e := rows[e].(active := false)];
      var resealed := ResealAll(off, leaves, keys, refreshed.value);
      rows, links, whitelist := resealed, unbound.links, unbound.whitelist;
      return Ok(());
    }

    /** `insert_allowed_bridges`: one row per peer; a repeated peer breaks the primary key. */
    method InsertBridges(id: int, peers: seq<string>) returns (ok: bool)
      requires Below(whitelist, id)
      modifies this`whitelist
      ensures ok <==> !RepeatIn([peers])
      ensures ok ==> whitelist == old(whitelist) + WhitelistRows([peers], id)
    {
      ghost var all := [peers];
      var k := 0;
      while k < |peers|
        invariant 0 <= k <= |peers|
        invariant whitelist == old(whitelist) + set j | 0 <= j < k :: (id, peers[j])
        invariant forall i, j :: 0 <= i < j < k ==> peers[i] != peers[j]
      {
        if (id, peers[k]) in whitelist {
          var j :| 0 <= j < k && peers[j] == peers[k];
          assert all[0][j] == all[0][k];
          return false;
        }
        whitelist := whitelist + {(id, peers[k])};
        k := k + 1;
      }
      assert forall x :: x in (set j | 0 <= j < k :: (id, peers[j])) <==> x in WhitelistRows(all, id) by {
        forall j | 0 <= j < k ensures (id, peers[j]) in WhitelistRows(all, id) {
          assert (id + 0, all[0][j]) in WhitelistRows(all, id);
        }
      }
      return true;
    }

    /** One row of `key_nodes` with its whitelist rows. */
    method InsertNode(row: Row, peers: seq<string>) returns (ok: bool)
      requires Below(whitelist, nextId)
      modifies this
      ensures ok <==> !RepeatIn([peers])
      ensures hardware == old(hardware) && links == old(links)
      ensures ok ==> State() == Inserted(old(State()), [row], WhitelistRows([peers], old(nextId)))
    {
      rows := rows + [row];
      nextId := nextId + 1;
      ok := InsertBridges(nextId - 1, peers);
    }

    /** `split_node`: insert this node, then each child with its own share as the secret. */
    method SplitNode(d: Dealing, spec: NodeSpec, parent: Option<int>, secret: Bytes) returns (ok: bool)
      requires Dealable(d, spec) && Below(whitelist, nextId)
      modifies this
      ensures ok <==> !BridgesRepeat(spec)
      ensures hardware == old(hardware) && links == old(links)
      ensures var s := old(State());
        ok ==> State() == Inserted(s, Rows(d, spec, parent, secret, s.nextId), WhitelistOf(spec, s.nextId))
      decreases spec
    {
      var id := nextId;
      match spec
      case Leaf(name, key, peers) =>
        ok := InsertNode(Row(id, parent, name, None, Some(key), Some(Sealed(d.hardware[key].public, secret)), true), peers);
      case Split(name, t, children, peers) =>
        RepeatConcat([peers], BridgesAll(children));
        HeaderThenChildren(d, spec, parent, secret, State());
        ok := InsertNode(Header(spec, parent, id), peers);
        if ok {
          ok := SplitChildren(d, children, id, Dealer(secret, t as nat, d.tapes(id)), 0);
        }
    }

    /** The loop over children and shares, from the k-th child on. */
    method SplitChildren(d: Dealing, children: seq<NodeSpec>, parent: int, polys: seq<Poly>, k: nat) returns (ok: bool)
      requires DealableAll(d, children, k) && Below(whitelist, nextId)
      modifies this
      ensures ok <==> !RepeatIn(BridgesAll(children))
      ensures hardware == old(hardware) && links == old(links)
      ensures var s := old(State());
        ok ==> State() == Inserted(s, RowsAll(d, children, k, parent, polys, s.nextId),
                                   WhitelistRows(BridgesAll(children), s.nextId))
      decreases children
    {
      if children == [] {
        NothingInserted(State());
        return true;
      }
      FirstThenRest(d, children, k, parent, polys, State());
      FirstThenRestRepeats(children);
      ok := SplitNode(d, children[0], Some(parent), ShareAt(d.g, polys, Point(k)));
      if ok {
        ok := SplitChildren(d, children[1..], parent, polys, k + 1);
      }
    }

    /** `split`: validate, then insert the whole tree; any failure rolls back. */
    method Split(g: Gf, spec: NodeSpec, secret: Bytes, tapes: int -> Tape) returns (r: Result<()>)
      requires rows == [] && Below(whitelist, nextId)
      modifies this
      ensures match SplitTree(g, old(State()), spec, secret, tapes)
        case Ok(s) => r == Ok(()) && State() == s
        case Err(e) => r == Err(e) && State() == old(State())
    {
      var before := State();
      var checked := Validate(before, spec);
      if checked.Err? {
        return Err(checked.error);
      }
      ValidateNodeExact(before, spec);
      UsableIsDealable(Dealing(g, hardware, tapes), before, spec);
      var ok := SplitNode(Dealing(g, hardware, tapes), spec, None, secret);
      if !ok {
        rows, whitelist, nextId := before.rows, before.whitelist, before.nextId;
        return Err(Db);
      }
      assert [] + Rows(Dealing(g, hardware, tapes), spec, None, secret, before.nextId)
          == Rows(Dealing(g, hardware, tapes), spec, None, secret, before.nextId);
      return Ok(());
    }
  }
}
