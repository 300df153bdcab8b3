/** When the edits of a key tree succeed and what exactly they change, said of the rows: loading, rebinding a
leaf, adding a leaf and evicting one. */
module KeyExact {
  import opened Errors
  import opened Field
  import opened Polynomials
  import opened Shamir
  import opened KeyTree
  import opened KeyStore
  import opened KeyRuns

  // ----- loading

  /** Row i's parent is row p. */
  predicate ParentRow(rows: seq<Row>, i: nat, p: nat)
    requires i < |rows|
  {
    p < |rows| && rows[i].parent == Some(rows[p].id)
  }

  /** Rows load exactly if there are any, their labels differ, every parent is a row, and some row has none. */
  ghost predicate Loadable(rows: seq<Row>) {
    && rows != [] && NamesDiffer(rows)
    && (forall i :: 0 <= i < |rows| && rows[i].parent.Some? ==> exists p: nat :: ParentRow(rows, i, p))
    && exists i :: 0 <= i < |rows| && rows[i].parent.None?
  }

  lemma OrphansIff(rows: seq<Row>)
    ensures Orphans(rows) <==> exists i :: 0 <= i < |rows| && rows[i].parent.Some? && forall p: nat :: !ParentRow(rows, i, p)
  {
    forall i | 0 <= i < |rows| && rows[i].parent.Some?
      ensures IndexOfId(rows, rows[i].parent.value).None? <==> forall p: nat :: !ParentRow(rows, i, p)
    {
      IndexOfIdFinds(rows, rows[i].parent.value);
      if IndexOfId(rows, rows[i].parent.value).Some? {
        assert ParentRow(rows, i, IndexOfId(rows, rows[i].parent.value).value);
      }
    }
  }

  lemma {:induction false} FirstRootIs(rows: seq<Row>, j: nat)
    requires j <= |rows|
    ensures match FirstRoot(rows, j)
      case None => forall i :: j <= i < |rows| ==> rows[i].parent.Some?
      case Some(r) => j <= r < |rows| && rows[r].parent.None? && forall i :: j <= i < r ==> rows[i].parent.Some?
    decreases |rows| - j
  {
    if j < |rows| && rows[j].parent.Some? {
      FirstRootIs(rows, j + 1);
    }
  }

  /** The arena's node for row i: its own columns, its parent and its children by index, its peers. */
  ghost predicate NodeOfRow(s: Store, a: Arena, i: nat)
    requires i < |s.rows| == |a.nodes|
  {
    var row, n := s.rows[i], a.nodes[i];
    && n.id == row.id && n.name == row.name && n.threshold == row.threshold && n.active == row.active
    && n.hardwareKey == row.hardwareKey
    && (forall p: nat :: n.parent == Some(p) <==> ParentRow(s.rows, i, p))
    && (forall c: nat :: c in n.children <==> c < |s.rows| && ParentRow(s.rows, c, i))
    && IndicesAscend(n.children)
    && (forall peer :: peer in n.bridges <==> (row.id, peer) in s.whitelist)
  }

  ghost predicate IndicesAscend(cs: seq<nat>) {
    forall k, l :: 0 <= k < l < |cs| ==> cs[k] < cs[l]
  }

  lemma {:induction false} ChildrenAscend(rows: seq<Row>, i: nat, j: nat)
    requires i < |rows| && j <= |rows|
    ensures IndicesAscend(ChildrenBelow(rows, i, j))
  {
    if j > 0 {
      ChildrenAscend(rows, i, j - 1);
      var rest := ChildrenBelow(rows, i, j - 1);
      forall k | 0 <= k < |rest| ensures rest[k] < j - 1 {
        assert rest[k] in rest;
      }
      assert IndicesAscend(rest + [j - 1]);
    }
  }

  lemma ParentIndexIs(rows: seq<Row>, i: nat, p: nat)
    requires Ordered(rows) && i < |rows|
    ensures (rows[i].parent.Some? && IndexOfId(rows, rows[i].parent.value) == Some(p)) <==> ParentRow(rows, i, p)
  {
    if rows[i].parent.Some? {
      IndexOfIdFinds(rows, rows[i].parent.value);
      if ParentRow(rows, i, p) {
        IndexOfIdIs(rows, p);
      }
    }
  }

  lemma NodeIsOfRow(s: Store, a: Arena, i: nat)
    requires Ordered(s.rows) && i < |s.rows| == |a.nodes| && a.nodes[i] == LoadNode(s, i)
    ensures NodeOfRow(s, a, i)
  {
    ChildrenAscend(s.rows, i, |s.rows|);
    forall p: nat ensures LoadNode(s, i).parent == Some(p) <==> ParentRow(s.rows, i, p) {
      ParentIndexIs(s.rows, i, p);
    }
    BridgesAre(s.whitelist, s.rows[i].id);
    assert LoadNode(s, i).children == ChildrenBelow(s.rows, i, |s.rows|);
  }

  lemma BridgesAre(whitelist: set<(int, string)>, id: int)
    ensures forall peer :: peer in BridgesOf(whitelist, id) <==> (id, peer) in whitelist
  {
  }

  /** Loading succeeds exactly on loadable rows, and builds the arena the rows describe, rooted at the first
  row without a parent. */
  lemma LoadExact(s: Store)
    requires Ordered(s.rows)
    ensures Load(s).Ok? <==> Loadable(s.rows)
    ensures Load(s).Ok? ==>
      var a := Load(s).value;
      && |a.nodes| == |s.rows| && (forall i :: 0 <= i < |s.rows| ==> NodeOfRow(s, a, i))
      && a.root < |s.rows| && s.rows[a.root].parent.None? && forall i :: 0 <= i < a.root ==> s.rows[i].parent.Some?
  {
    OrphansIff(s.rows);
    FirstRootIs(s.rows, 0);
    if Load(s).Ok? {
      forall i | 0 <= i < |s.rows| ensures NodeOfRow(s, Load(s).value, i) {
        NodeIsOfRow(s, Load(s).value, i);
      }
    }
  }

  lemma ShapeLoads(s: Store)
    requires WellShaped(s)
    ensures Load(s).Ok?
  {
    SoundLoads(s);
  }

  // ----- keys

  /** A registered, unrevoked encryption key. */
  predicate Usable(s: Store, key: int) {
    key in s.hardware && s.hardware[key].encryption && !s.hardware[key].revoked
  }

  lemma ActiveKeyIff(s: Store, key: int)
    ensures ActiveKey(s, key).Ok? <==> Usable(s, key)
    ensures ActiveKey(s, key).Ok? ==> ActiveKey(s, key).value == s.hardware[key].public
  {
  }

  /** A leaf's share is had exactly with the secret of the key it is bound to and sealed to. */
  lemma UnwrapExact(s: Store, i: nat, sk: SecretKey, share: Bytes)
    requires i < |s.rows|
    ensures UnwrapLeaf(s, i, sk) == Ok(share) <==>
      && s.rows[i].hardwareKey.Some? && s.rows[i].hardwareKey.value in s.hardware
      && s.hardware[s.rows[i].hardwareKey.value].public == sk.public && s.rows[i].wrapped == Some(Sealed(sk.public, share))
  {
  }

  // ----- rebinding

  /** The active leaf with this label is sealed to a key with this secret, and the new key can be used. */
  predicate CanRebind(s: Store, i: nat, name: string, newKey: int, sk: SecretKey) {
    && i < |s.rows| && s.rows[i].name == name && s.rows[i].active && s.rows[i].hardwareKey.Some?
    && s.rows[i].hardwareKey.value in s.hardware && s.hardware[s.rows[i].hardwareKey.value].public == sk.public
    && Usable(s, newKey)
  }

  /** Only row i changes: it names the new key, and its share is the one it had, for the new key's holder alone. */
  ghost predicate ReboundTo(s: Store, s': Store, i: nat, newKey: int)
    requires i < |s.rows| && s.rows[i].wrapped.Some? && newKey in s.hardware
  {
    && |s'.rows| == |s.rows| && s'.rows == s.rows[i := s.rows[i].(hardwareKey := Some(newKey), wrapped := s'.rows[i].wrapped)]
    && s'.rows[i].wrapped.Some?
    && (forall sk: SecretKey :: Unseal(sk, s'.rows[i].wrapped.value) ==
          if sk.public == s.hardware[newKey].public then Some(s.rows[i].wrapped.value.plain) else None)
    && s'.hardware == s.hardware && s'.whitelist == s.whitelist && s'.links == s.links && s'.nextId == s.nextId
  }

  /** On every well-shaped store, rebinding succeeds exactly with the present key's secret for the active leaf
  of that label and a usable new key, and then moves that leaf's share, and nothing else, to the new key. */
  lemma RebindExact(s: Store, name: string, newKey: int, sk: SecretKey)
    requires WellShaped(s)
    ensures RebindLeaf(s, name, newKey, sk).Ok? <==> exists i: nat :: CanRebind(s, i, name, newKey, sk)
    ensures forall i: nat :: CanRebind(s, i, name, newKey, sk) && RebindLeaf(s, name, newKey, sk).Ok? ==>
      s.rows[i].wrapped.Some? && ReboundTo(s, RebindLeaf(s, name, newKey, sk).value, i, newKey)
  {
    ShapeLoads(s);
    IndexOfNameFinds(s.rows, name);
    ActiveKeyIff(s, newKey);
    match IndexOfName(s.rows, name) {
      case None =>
      case Some(k) =>
        assert RowShape(s, k) && RowKind(s, k);
        forall i: nat | CanRebind(s, i, name, newKey, sk) ensures i == k {
          assert s.rows[i].name == s.rows[k].name;
        }
        if RebindLeaf(s, name, newKey, sk).Ok? {
          assert CanRebind(s, k, name, newKey, sk);
        }
    }
  }

  /** Any other label, key or secret leaves the store as it was: the edit fails. And the leaf's new holder
  unwraps, after the edit, what the old one did before it. */
  lemma ReboundUnwraps(s: Store, name: string, newKey: int, sk: SecretKey, i: nat)
    requires WellShaped(s) && CanRebind(s, i, name, newKey, sk)
    ensures RebindLeaf(s, name, newKey, sk).Ok? && i < |RebindLeaf(s, name, newKey, sk).value.rows|
    ensures UnwrapLeaf(RebindLeaf(s, name, newKey, sk).value, i, SecretKey(s.hardware[newKey].public)) == UnwrapLeaf(s, i, sk)
    ensures UnwrapLeaf(s, i, sk).Ok?
  {
    RebindExact(s, name, newKey, sk);
    assert RowShape(s, i) && RowKind(s, i);
  }

  // ----- the shares an edit is given

  /** The children among these whose shares are presented. */
  function Presenting(rows: seq<Row>, presented: RawShares, cs: set<nat>): set<nat> {
    set c | c in cs && c < |rows| && rows[c].id in presented
  }

  lemma {:induction false} GivenCount(rows: seq<Row>, leaves: seq<nat>, presented: RawShares, all: set<nat>)
    requires In(rows, leaves) && Enumerates(leaves, all)
    ensures |Given(rows, leaves, presented)| == |Presenting(rows, presented, all)|
  {
    if leaves == [] {
      assert Presenting(rows, presented, all) == {};
    } else {
      var n := |leaves| - 1;
      var c := leaves[n];
      FrontEnumerates(leaves, all);
      GivenCount(rows, leaves[..n], presented, all - {c});
      var before := Presenting(rows, presented, all - {c});
      assert Presenting(rows, presented, all) == if rows[c].id in presented then before + {c} else before;
    }
  }

  lemma FrontEnumerates(leaves: seq<nat>, all: set<nat>)
    requires Enumerates(leaves, all) && leaves != []
    ensures Enumerates(leaves[..|leaves| - 1], all - {leaves[|leaves| - 1]}) && leaves[|leaves| - 1] in all
  {
    var n := |leaves| - 1;
    assert leaves == leaves[..n] + [leaves[n]];
    assert leaves[n] !in leaves[..n];
  }

  /** The listed children of p hold shares on these polynomials at distinct points. */
  ghost predicate LeavesOnPolys(g: Gf, s: Store, secrets: Secrets, p: nat, polys: seq<Poly>, leaves: seq<nat>) {
    && p < |s.rows| && s.rows[p].threshold.Some? && Family(g, s.rows, secrets, p, polys) && WellShaped(s)
    && In(s.rows, leaves) && NoRepeats(leaves)
    && forall k :: 0 <= k < |leaves| ==> leaves[k] in ActiveSet(s.rows, p) && s.rows[leaves[k]].threshold.None?
  }

  ghost predicate FromLeaves(s: Store, secrets: Secrets, leaves: seq<nat>, raws: seq<Bytes>)
  {
    forall r :: r in raws ==> exists k :: 0 <= k < |leaves| && leaves[k] < |s.rows| && r == Value(s.rows, secrets, leaves[k])
  }

  /** Genuine entries of distinct leaves lie at distinct non-zero points. */
  lemma {:induction false} GivenApart(g: Gf, s: Store, secrets: Secrets, p: nat, polys: seq<Poly>, leaves: seq<nat>,
                                      presented: RawShares)
    requires LeavesOnPolys(g, s, secrets, p, polys, leaves) && GenuineEntries(s, secrets, presented)
    ensures var raws := Given(s.rows, leaves, presented);
      FromLeaves(s, secrets, leaves, raws) && AllParse(raws) && Distinct(Xs(raws)) && 0 !in Xs(raws)
  {
    if leaves != [] {
      var n := |leaves| - 1;
      var c, front := leaves[n], leaves[..n];
      GivenApart(g, s, secrets, p, polys, front, presented);
      var before := Given(s.rows, front, presented);
      if s.rows[c].id in presented {
        assert OnPolys(g, polys, Value(s.rows, secrets, c));
        assert |polys| >= 1;
        NewPoint(g, s, secrets, p, polys, leaves, before);
      }
      forall r | r in Given(s.rows, leaves, presented)
        ensures exists k :: 0 <= k < |leaves| && r == Value(s.rows, secrets, leaves[k])
      {
        if r in before {
          var k :| 0 <= k < |front| && r == Value(s.rows, secrets, front[k]);
          assert leaves[k] == front[k];
        } else {
          assert r == Value(s.rows, secrets, leaves[n]);
        }
      }
    }
  }

  lemma NewPoint(g: Gf, s: Store, secrets: Secrets, p: nat, polys: seq<Poly>, leaves: seq<nat>, before: seq<Bytes>)
    requires LeavesOnPolys(g, s, secrets, p, polys, leaves) && leaves != []
    requires FromLeaves(s, secrets, leaves[..|leaves| - 1], before)
    requires AllParse(before) && Distinct(Xs(before)) && 0 !in Xs(before)
    ensures var v := Value(s.rows, secrets, leaves[|leaves| - 1]);
      |v| >= 2 && Distinct(Xs(before + [v])) && 0 !in Xs(before + [v])
  {
    var n := |leaves| - 1;
    var v := Value(s.rows, secrets, leaves[n]);
    assert leaves[n] in ActiveSet(s.rows, p);
    assert OnPolys(g, polys, v);
    forall i | 0 <= i < |before| ensures before[i][0] != v[0] {
      assert before[i] in before;
      var k :| 0 <= k < n && before[i] == Value(s.rows, secrets, leaves[..n][k]);
      assert leaves[k] in ActiveSet(s.rows, p) && leaves[k] != leaves[n];
    }
    PointsAppend(before, v);
  }

  lemma PointsAppend(before: seq<Bytes>, v: Bytes)
    requires AllParse(before) && Distinct(Xs(before)) && 0 !in Xs(before)
    requires |v| >= 1 && v[0] != 0 && forall i :: 0 <= i < |before| ==> before[i][0] != v[0]
    ensures Distinct(Xs(before + [v])) && 0 !in Xs(before + [v])
  {
    var xs := Xs(before + [v]);
    assert xs == Xs(before) + [v[0]];
    forall i, j | 0 <= i < j < |xs| ensures xs[i] != xs[j] {
      if j == |before| {
        assert xs[i] == before[i][0];
      } else {
        assert Xs(before)[i] != Xs(before)[j];
      }
    }
  }

  /** Enough genuine entries always recover the split's value. */
  lemma GivenRecover(g: Gf, s: Store, secrets: Secrets, p: nat, polys: seq<Poly>, leaves: seq<nat>, presented: RawShares)
    requires Lawful(g) && LeavesOnPolys(g, s, secrets, p, polys, leaves) && GenuineEntries(s, secrets, presented)
    requires |Given(s.rows, leaves, presented)| >= s.rows[p].threshold.value
    ensures RecoverSecret(g, s.rows[p].threshold.value, Given(s.rows, leaves, presented)) == Ok(Value(s.rows, secrets, p))
  {
    var raws := Given(s.rows, leaves, presented);
    GivenApart(g, s, secrets, p, polys, leaves, presented);
    GivenGenuine(g, s, secrets, p, polys, leaves, presented);
    assert |polys[0]| == s.rows[p].threshold.value;
    RecoverGenuine(g, polys, s.rows[p].threshold.value, Value(s.rows, secrets, p), raws);
  }

  lemma {:induction false} LeafKeysIff(s: Store, leaves: seq<nat>)
    requires AllLeaves(s.rows, leaves)
    ensures LeafKeys(s, leaves).Ok? <==> forall k :: 0 <= k < |leaves| ==> Usable(s, s.rows[leaves[k]].hardwareKey.value)
  {
    if leaves != [] {
      LeafKeysIff(s, leaves[..|leaves| - 1]);
    }
  }

  // ----- adding a leaf

  /** Every active child of p, the skipped one aside, is a leaf whose key can be used. */
  ghost predicate LeavesUsable(s: Store, p: nat, skip: Option<nat>)
    requires p < |s.rows|
  {
    forall c :: c in ActiveSet(s.rows, p) && skip != Some(c) ==>
      s.rows[c].hardwareKey.Some? && Usable(s, s.rows[c].hardwareKey.value)
  }

  /** Row p is a split of this label with room for one more leaf, all its active children are usable leaves, and
  a threshold of them present their shares; the new label is new and the new key can be used. */
  ghost predicate CanAdd(s: Store, p: nat, parentName: string, newName: string, newKey: int, presented: RawShares) {
    && p < |s.rows| && s.rows[p].name == parentName && s.rows[p].threshold.Some?
    && newName != "" && (forall i :: 0 <= i < |s.rows| ==> s.rows[i].name != newName) && Usable(s, newKey)
    && |ActiveSet(s.rows, p)| < 255 && LeavesUsable(s, p, None)
    && |Presenting(s.rows, presented, ActiveSet(s.rows, p))| >= s.rows[p].threshold.value
  }

  /** The active children, if all are leaves, as the edits list them. */
  lemma LeavesListed(s: Store, p: nat, skip: Option<nat>)
    requires WellShaped(s) && p < |s.rows|
    ensures ActiveLeaves(s.rows, Children(s.rows, p), skip).Some? <==>
      forall c :: c in ActiveSet(s.rows, p) && skip != Some(c) ==> s.rows[c].hardwareKey.Some?
    ensures ActiveLeaves(s.rows, Children(s.rows, p), skip).Some? ==>
      var leaves := ActiveLeaves(s.rows, Children(s.rows, p), skip).value;
      && Enumerates(leaves, set c | c in ActiveSet(s.rows, p) && skip != Some(c)) && AllLeaves(s.rows, leaves)
  {
    ActiveLeavesAre(s.rows, Children(s.rows, p), skip);
    if ActiveLeaves(s.rows, Children(s.rows, p), skip).Some? {
      LeavesAreActive(s, p, skip);
    }
  }

  lemma LeavesOnFamily(g: Gf, s: Store, secrets: Secrets, p: nat, skip: Option<nat>, polys: seq<Poly>)
    requires Sound(g, s, secrets) && p < |s.rows| && s.rows[p].threshold.Some? && Family(g, s.rows, secrets, p, polys)
    requires ActiveLeaves(s.rows, Children(s.rows, p), skip).Some?
    ensures LeavesOnPolys(g, s, secrets, p, polys, ActiveLeaves(s.rows, Children(s.rows, p), skip).value)
  {
    var leaves := ActiveLeaves(s.rows, Children(s.rows, p), skip).value;
    LeavesAreActive(s, p, skip);
    forall k | 0 <= k < |leaves| ensures leaves[k] in ActiveSet(s.rows, p) && s.rows[leaves[k]].threshold.None? {
      assert leaves[k] in leaves;
    }
  }

  /** The checks of an addition after both labels have been looked up. */
  ghost predicate AddChecks(g: Gf, s: Store, p: nat, newKey: int, presented: RawShares)
    requires p < |s.rows|
  {
    && s.rows[p].threshold.Some? && ActiveLeaves(s.rows, Children(s.rows, p), None).Some?
    && var t, leaves := s.rows[p].threshold.value, ActiveLeaves(s.rows, Children(s.rows, p), None).value;
       && |leaves| < 255 && 0 < t <= |leaves| + 1 && t <= |Given(s.rows, leaves, presented)|
       && RecoverSecret(g, t, Given(s.rows, leaves, presented)).Ok?
       && ActiveKey(s, newKey).Ok? && LeafKeys(s, leaves).Ok?
  }

  lemma BothFound(rows: seq<Row>, p: nat, newName: string)
    requires NamesDiffer(rows) && p < |rows| && forall i :: 0 <= i < |rows| ==> rows[i].name != newName
    ensures IndexOfName(rows, newName).None? && IndexOfName(rows, rows[p].name) == Some(p)
  {
    IndexOfNameFinds(rows, newName);
    IndexOfNameFinds(rows, rows[p].name);
  }

  lemma AddUnfolds(g: Gf, s: Store, p: nat, newName: string, newKey: int, presented: RawShares, tape: Tape)
    requires Load(s).Ok? && NamesDiffer(s.rows) && p < |s.rows|
    requires newName != "" && forall i :: 0 <= i < |s.rows| ==> s.rows[i].name != newName
    ensures AddLeaf(g, s, s.rows[p].name, newName, newKey, presented, tape).Ok? <==> AddChecks(g, s, p, newKey, presented)
  {
    BothFound(s.rows, p, newName);
  }

  lemma QuorumRecovers(g: Gf, s: Store, secrets: Secrets, p: nat, presented: RawShares)
    requires Sound(g, s, secrets) && GenuineEntries(s, secrets, presented) && p < |s.rows| && s.rows[p].threshold.Some?
    requires ActiveLeaves(s.rows, Children(s.rows, p), None).Some?
    ensures s.rows[p].threshold.value > 0
    ensures var leaves := ActiveLeaves(s.rows, Children(s.rows, p), None).value;
      && In(s.rows, leaves)
      && (|Given(s.rows, leaves, presented)| >= s.rows[p].threshold.value ==>
            RecoverSecret(g, s.rows[p].threshold.value, Given(s.rows, leaves, presented)).Ok?)
  {
    var leaves := ActiveLeaves(s.rows, Children(s.rows, p), None).value;
    var polys :| Family(g, s.rows, secrets, p, polys);
    LeavesOnFamily(g, s, secrets, p, None, polys);
    assert |polys[0]| == s.rows[p].threshold.value;
    if |Given(s.rows, leaves, presented)| >= s.rows[p].threshold.value {
      GivenRecover(g, s, secrets, p, polys, leaves, presented);
    }
  }

  lemma AddChecksIff(g: Gf, s: Store, secrets: Secrets, p: nat, newName: string, newKey: int, presented: RawShares)
    requires Sound(g, s, secrets) && GenuineEntries(s, secrets, presented) && p < |s.rows| && s.rows[p].threshold.Some?
    requires newName != "" && forall i :: 0 <= i < |s.rows| ==> s.rows[i].name != newName
    requires ActiveLeaves(s.rows, Children(s.rows, p), None).Some?
    ensures AddChecks(g, s, p, newKey, presented) <==> CanAdd(s, p, s.rows[p].name, newName, newKey, presented)
  {
    var leaves := ActiveLeaves(s.rows, Children(s.rows, p), None).value;
    var all := set c | c in ActiveSet(s.rows, p) && None != Some(c);
    assert all == ActiveSet(s.rows, p);
    LeavesListed(s, p, None);
    SetOfMembers(leaves, all);
    GivenCount(s.rows, leaves, presented, all);
    LeafKeysIff(s, leaves);
    UsableListed(s, p, None, leaves);
    ActiveKeyIff(s, newKey);
    QuorumRecovers(g, s, secrets, p, presented);
  }

  lemma AddAtIff(g: Gf, s: Store, secrets: Secrets, p: nat, newName: string, newKey: int, presented: RawShares, tape: Tape)
    requires Sound(g, s, secrets) && GenuineEntries(s, secrets, presented) && p < |s.rows|
    requires newName != "" && forall i :: 0 <= i < |s.rows| ==> s.rows[i].name != newName
    ensures AddLeaf(g, s, s.rows[p].name, newName, newKey, presented, tape).Ok?
       <==> CanAdd(s, p, s.rows[p].name, newName, newKey, presented)
  {
    ShapeLoads(s);
    AddUnfolds(g, s, p, newName, newKey, presented, tape);
    LeavesListed(s, p, None);
    if s.rows[p].threshold.Some? && ActiveLeaves(s.rows, Children(s.rows, p), None).Some? {
      AddChecksIff(g, s, secrets, p, newName, newKey, presented);
    }
  }

  lemma UsableListed(s: Store, p: nat, skip: Option<nat>, leaves: seq<nat>)
    requires p < |s.rows| && AllLeaves(s.rows, leaves)
    requires Enumerates(leaves, set c | c in ActiveSet(s.rows, p) && skip != Some(c))
    ensures LeavesUsable(s, p, skip) <==> forall k :: 0 <= k < |leaves| ==> Usable(s, s.rows[leaves[k]].hardwareKey.value)
  {
    if LeavesUsable(s, p, skip) {
      forall k | 0 <= k < |leaves| ensures Usable(s, s.rows[leaves[k]].hardwareKey.value) {
        assert leaves[k] in leaves;
      }
    }
    if forall k :: 0 <= k < |leaves| ==> Usable(s, s.rows[leaves[k]].hardwareKey.value) {
      forall c | c in ActiveSet(s.rows, p) && skip != Some(c)
        ensures s.rows[c].hardwareKey.Some? && Usable(s, s.rows[c].hardwareKey.value)
      {
        assert c in leaves by {
          assert c in set c | c in ActiveSet(s.rows, p) && skip != Some(c);
        }
        var k :| 0 <= k < |leaves| && leaves[k] == c;
      }
    }
  }

  lemma AddMisses(g: Gf, s: Store, parentName: string, newName: string, newKey: int, presented: RawShares, tape: Tape)
    requires newName == "" || IndexOfName(s.rows, newName).Some? || IndexOfName(s.rows, parentName).None?
    ensures AddLeaf(g, s, parentName, newName, newKey, presented, tape).Err?
    ensures forall p: nat :: !CanAdd(s, p, parentName, newName, newKey, presented)
  {
    IndexOfNameFinds(s.rows, newName);
    IndexOfNameFinds(s.rows, parentName);
  }

  /** With genuine entries presented, adding a leaf succeeds exactly when it can. */
  lemma AddLeafSucceedsIff(g: Gf, s: Store, secrets: Secrets, parentName: string, newName: string, newKey: int,
                           presented: RawShares, tape: Tape)
    requires Sound(g, s, secrets) && GenuineEntries(s, secrets, presented)
    ensures AddLeaf(g, s, parentName, newName, newKey, presented, tape).Ok?
       <==> exists p: nat :: CanAdd(s, p, parentName, newName, newKey, presented)
  {
    IndexOfNameFinds(s.rows, newName);
    IndexOfNameFinds(s.rows, parentName);
    if newName != "" && IndexOfName(s.rows, newName).None? && IndexOfName(s.rows, parentName).Some? {
      var k := IndexOfName(s.rows, parentName).value;
      AddAtIff(g, s, secrets, k, newName, newKey, presented, tape);
      forall p: nat | CanAdd(s, p, parentName, newName, newKey, presented) ensures p == k {
        assert s.rows[p].name == s.rows[k].name;
      }
    } else {
      AddMisses(g, s, parentName, newName, newKey, presented, tape);
    }
  }

  /** The wrapping is for this leaf's own key. */
  predicate SealedToOwner(s: Store, row: Row) {
    && row.hardwareKey.Some? && row.hardwareKey.value in s.hardware && row.wrapped.Some?
    && row.wrapped.value.to == s.hardware[row.hardwareKey.value].public
  }

  /** One leaf more below p, active, of this label and key; the active leaves of p are sealed anew, each to its own
  key, and nothing else changes. */
  ghost predicate OneLeafMore(s: Store, s': Store, p: nat, newName: string, newKey: int)
    requires p < |s.rows|
  {
    var n := |s.rows|;
    && |s'.rows| == n + 1
    && s'.rows[n] == Row(s.nextId, Some(s.rows[p].id), newName, None, Some(newKey), s'.rows[n].wrapped, true)
    && SealedToOwner(s, s'.rows[n])
    && (forall c :: 0 <= c < n && c !in ActiveSet(s.rows, p) ==> s'.rows[c] == s.rows[c])
    && (forall c :: c in ActiveSet(s.rows, p) ==>
          s'.rows[c] == s.rows[c].(wrapped := s'.rows[c].wrapped) && SealedToOwner(s, s'.rows[c]))
    && s' == s.(rows := s'.rows, nextId := s.nextId + 1)
  }

  /** These leaves hold these shares, one each. */
  predicate SharesHeld(rows: seq<Row>, leaves: seq<nat>, shares: seq<Bytes>) {
    && |leaves| == |shares|
    && forall k :: 0 <= k < |leaves| ==>
      leaves[k] < |rows| && rows[leaves[k]].wrapped.Some? && rows[leaves[k]].wrapped.value.plain == shares[k]
  }

  /** The active leaves and the new one hold fresh shares of the parent's value, dealt with the given draw. */
  lemma AddedExact(g: Gf, s: Store, s': Store, secrets: Secrets, parentName: string, newName: string, newKey: int,
                   presented: RawShares, tape: Tape, p: nat) returns (leaves: seq<nat>)
    requires Sound(g, s, secrets) && GenuineEntries(s, secrets, presented) && p < |s.rows| && s.rows[p].name == parentName
    requires AddLeaf(g, s, parentName, newName, newKey, presented, tape) == Ok(s')
    ensures OneLeafMore(s, s', p, newName, newKey) && s.rows[p].threshold.Some? && s.rows[p].threshold.value > 0
    ensures ActiveLeaves(s.rows, Children(s.rows, p), None) == Some(leaves) && |leaves| < 255
    ensures SharesHeld(s'.rows, leaves + [|s.rows|],
                       FreshShares(g, Dealer(Value(s.rows, secrets, p), s.rows[p].threshold.value, tape), |leaves| + 1))
  {
    var at, listed, keys, polys := AddLeafIs(g, s, secrets, parentName, newName, newKey, presented, tape);
    assert at == p;
    leaves := listed;
    ResharedHolds(g, s, s', p, leaves, keys, polys, newName, newKey);
    ResharedExact(g, s, s', p, leaves, keys, polys, newName, newKey);
  }

  lemma ResharedHolds(g: Gf, s: Store, s': Store, p: nat, leaves: seq<nat>, keys: seq<PublicKey>, polys: seq<Poly>,
                      newName: string, newKey: int)
    requires WellShaped(s) && Reshared(g, s, s', p, leaves, keys, polys, newName, newKey)
    ensures SharesHeld(s'.rows, leaves + [|s.rows|], FreshShares(g, polys, |leaves| + 1))
  {
    ResharedRows(g, s, s', p, leaves, keys, polys, newName, newKey);
    forall k | 0 <= k < |leaves|
      ensures s'.rows[leaves[k]].wrapped == Some(Sealed(keys[k], FreshShares(g, polys, |leaves| + 1)[k]))
    {
      assert s'.rows[..|s.rows|][leaves[k]] == s'.rows[leaves[k]];
    }
  }

  lemma ResharedExact(g: Gf, s: Store, s': Store, p: nat, leaves: seq<nat>, keys: seq<PublicKey>, polys: seq<Poly>,
                      newName: string, newKey: int)
    requires WellShaped(s) && Reshared(g, s, s', p, leaves, keys, polys, newName, newKey)
    ensures OneLeafMore(s, s', p, newName, newKey)
  {
    var shares := FreshShares(g, polys, |leaves| + 1)[..|leaves|];
    ResharedRows(g, s, s', p, leaves, keys, polys, newName, newKey);
    RewrittenExact(s, s.rows, s'.rows[..|s.rows|], leaves, keys, shares);
    forall c | 0 <= c < |s.rows| ensures s'.rows[..|s.rows|][c] == s'.rows[c] {
    }
  }

  /** Resealing leaves gives each a wrapping for its own key, and touches no other row. */
  lemma RewrittenExact(s: Store, rows: seq<Row>, r: seq<Row>, leaves: seq<nat>, keys: seq<PublicKey>, shares: seq<Bytes>)
    requires |leaves| == |keys| == |shares| && In(rows, leaves) && Rewritten(rows, r, leaves, keys, shares)
    requires |rows| == |s.rows| && AllLeaves(s.rows, leaves) && LeafKeys(s, leaves) == Ok(keys)
    requires forall c :: 0 <= c < |rows| ==> rows[c].hardwareKey == s.rows[c].hardwareKey
    ensures forall c :: 0 <= c < |rows| && c !in leaves ==> r[c] == rows[c]
    ensures forall c :: c in leaves ==>
      c < |rows| && r[c] == rows[c].(wrapped := r[c].wrapped) && SealedToOwner(s, r[c])
  {
    LeafKeysAre(s, leaves);
    forall c | c in leaves ensures c < |rows| && r[c] == rows[c].(wrapped := r[c].wrapped) && SealedToOwner(s, r[c]) {
      var k :| 0 <= k < |leaves| && leaves[k] == c;
      assert r[leaves[k]] == rows[leaves[k]].(wrapped := Some(Sealed(keys[k], shares[k])));
    }
  }

  // ----- evicting a leaf

  /** Row e is an active leaf with this id below split p, whose threshold is at least two and is met by the other
  active children, all of them leaves that present their shares under usable keys. */
  ghost predicate CanEvict(s: Store, e: nat, p: nat, id: int, presented: RawShares) {
    && e < |s.rows| && s.rows[e].id == id && s.rows[e].active && s.rows[e].threshold.None? && ParentRow(s.rows, e, p)
    && s.rows[p].threshold.Some? && 2 <= s.rows[p].threshold.value < |ActiveSet(s.rows, p)|
    && LeavesUsable(s, p, Some(e))
    && forall c :: c in ActiveSet(s.rows, p) && c != e ==> s.rows[c].id in presented
  }

  lemma {:induction false} SurvivorsIff(s: Store, leaves: seq<nat>, presented: RawShares)
    requires AllLeaves(s.rows, leaves)
    ensures Survivors(s, leaves, presented).Ok? <==>
      forall k :: 0 <= k < |leaves| ==> s.rows[leaves[k]].id in presented && Usable(s, s.rows[leaves[k]].hardwareKey.value)
  {
    if leaves != [] {
      SurvivorsIff(s, leaves[..|leaves| - 1], presented);
    }
  }

  /** Genuine shares of enough leaves can always be refreshed. */
  lemma GenuineRefreshes(g: Gf, s: Store, secrets: Secrets, p: nat, polys: seq<Poly>, leaves: seq<nat>, raws: seq<Bytes>,
                         t: nat)
    requires LeavesOnPolys(g, s, secrets, p, polys, leaves) && RawsAre(s, secrets, leaves, raws)
    requires 2 <= t <= |leaves|
    ensures CanRefresh(raws, t)
  {
    forall k | 0 <= k < |raws| ensures OnPolys(g, polys, raws[k]) {
      assert leaves[k] in ActiveSet(s.rows, p);
    }
    forall i, j | 0 <= i < j < |raws| ensures Xs(raws)[i] != Xs(raws)[j] {
      assert leaves[i] != leaves[j] && leaves[i] in ActiveSet(s.rows, p) && leaves[j] in ActiveSet(s.rows, p);
    }
    assert |polys| >= 1;
  }

  lemma RawsOfSurvivors(s: Store, secrets: Secrets, e: nat, p: nat, leaves: seq<nat>, presented: RawShares)
    requires WellShaped(s) && p < |s.rows| && ActiveLeaves(s.rows, Children(s.rows, p), Some(e)) == Some(leaves)
    requires GenuineEntries(s, secrets, presented) && Survivors(s, leaves, presented).Ok?
    ensures In(s.rows, leaves) && RawsAre(s, secrets, leaves, Survivors(s, leaves, presented).value.0)
  {
    SurvivorsGenuine(s, secrets, e, p, leaves, Survivors(s, leaves, presented).value.0, presented);
  }

  /** The checks of an eviction after the leaf and its parent have been looked up. */
  ghost predicate EvictChecks(s: Store, e: nat, p: nat, presented: RawShares)
    requires p < |s.rows|
  {
    && s.rows[p].threshold.Some? && 2 <= s.rows[p].threshold.value
    && ActiveLeaves(s.rows, Children(s.rows, p), Some(e)).Some?
    && var leaves := ActiveLeaves(s.rows, Children(s.rows, p), Some(e)).value;
       s.rows[p].threshold.value <= |leaves| && Survivors(s, leaves, presented).Ok?
  }

  lemma EvictBelowIff(g: Gf, s: Store, secrets: Secrets, e: nat, p: nat, presented: RawShares, tapes: Tapes)
    requires Sound(g, s, secrets) && GenuineEntries(s, secrets, presented) && e < |s.rows| && p < |s.rows|
    ensures EvictBelow(g, s, e, p, presented, tapes).Ok? <==> EvictChecks(s, e, p, presented)
  {
    if EvictChecks(s, e, p, presented) {
      var leaves := ActiveLeaves(s.rows, Children(s.rows, p), Some(e)).value;
      var polys :| Family(g, s.rows, secrets, p, polys);
      LeavesOnFamily(g, s, secrets, p, Some(e), polys);
      RawsOfSurvivors(s, secrets, e, p, leaves, presented);
      GenuineRefreshes(g, s, secrets, p, polys, leaves, Survivors(s, leaves, presented).value.0, s.rows[p].threshold.value);
    }
  }

  lemma SurvivorCount(s: Store, e: nat, p: nat, leaves: seq<nat>)
    requires p < |s.rows| && e in ActiveSet(s.rows, p)
    requires Enumerates(leaves, set c | c in ActiveSet(s.rows, p) && Some(e) != Some(c))
    ensures |leaves| == |ActiveSet(s.rows, p)| - 1
  {
    var others := set c | c in ActiveSet(s.rows, p) && Some(e) != Some(c);
    SetOfMembers(leaves, others);
    assert ActiveSet(s.rows, p) == others + {e} && e !in others;
  }

  lemma PresentListed(s: Store, e: nat, p: nat, leaves: seq<nat>, presented: RawShares)
    requires p < |s.rows| && AllLeaves(s.rows, leaves)
    requires Enumerates(leaves, set c | c in ActiveSet(s.rows, p) && Some(e) != Some(c))
    ensures (forall c :: c in ActiveSet(s.rows, p) && c != e ==> s.rows[c].id in presented)
       <==> (forall k :: 0 <= k < |leaves| ==> s.rows[leaves[k]].id in presented)
  {
    var others := set c | c in ActiveSet(s.rows, p) && Some(e) != Some(c);
    forall k | 0 <= k < |leaves| ensures leaves[k] in others {
      assert leaves[k] in leaves;
    }
    forall c | c in ActiveSet(s.rows, p) && c != e ensures exists k :: 0 <= k < |leaves| && leaves[k] == c {
      assert c in others;
      assert c in leaves;
    }
  }

  lemma EvictChecksIff(s: Store, e: nat, p: nat, presented: RawShares)
    requires WellShaped(s) && e < |s.rows| && s.rows[e].active && s.rows[e].threshold.None? && ParentRow(s.rows, e, p)
    ensures EvictChecks(s, e, p, presented) <==> CanEvict(s, e, p, s.rows[e].id, presented)
  {
    LeavesListed(s, p, Some(e));
    if ActiveLeaves(s.rows, Children(s.rows, p), Some(e)).Some? {
      var leaves := ActiveLeaves(s.rows, Children(s.rows, p), Some(e)).value;
      SurvivorCount(s, e, p, leaves);
      SurvivorsIff(s, leaves, presented);
      UsableListed(s, p, Some(e), leaves);
      PresentListed(s, e, p, leaves, presented);
    }
  }

  lemma EvictUnfolds(g: Gf, s: Store, e: nat, p: nat, presented: RawShares, tapes: Tapes)
    requires Load(s).Ok? && Ordered(s.rows) && e < |s.rows| && ParentRow(s.rows, e, p)
    ensures Evict(g, s, s.rows[e].id, presented, tapes) ==
      if s.rows[e].active && s.rows[e].hardwareKey.Some? then EvictBelow(g, s, e, p, presented, tapes) else Err(CannotEvict)
  {
    IndexOfIdIs(s.rows, e);
    IndexOfIdIs(s.rows, p);
  }

  lemma RootStays(g: Gf, s: Store, e: nat, presented: RawShares, tapes: Tapes)
    requires Load(s).Ok? && Ordered(s.rows) && e < |s.rows| && s.rows[e].parent.None?
    ensures Evict(g, s, s.rows[e].id, presented, tapes).Err?
  {
    IndexOfIdIs(s.rows, e);
  }

  lemma EvictAtIff(g: Gf, s: Store, secrets: Secrets, e: nat, presented: RawShares, tapes: Tapes)
    requires Sound(g, s, secrets) && GenuineEntries(s, secrets, presented) && e < |s.rows|
    ensures Evict(g, s, s.rows[e].id, presented, tapes).Ok? <==>
      exists p: nat :: CanEvict(s, e, p, s.rows[e].id, presented)
  {
    ShapeLoads(s);
    assert RowShape(s, e) && RowKind(s, e);
    if s.rows[e].parent.None? {
      RootStays(g, s, e, presented, tapes);
    } else {
      var p :| 0 <= p < e && s.rows[p].threshold.Some? && s.rows[e].parent == Some(s.rows[p].id);
      EvictUnfolds(g, s, e, p, presented, tapes);
      if s.rows[e].active && s.rows[e].threshold.None? {
        EvictBelowIff(g, s, secrets, e, p, presented, tapes);
        EvictChecksIff(s, e, p, presented);
      }
      forall q: nat | CanEvict(s, e, q, s.rows[e].id, presented) ensures q == p {
        assert s.rows[q].id == s.rows[p].id;
      }
    }
  }

  /** With genuine entries presented, an eviction succeeds exactly when the leaf can be evicted. */
  lemma EvictSucceedsIff(g: Gf, s: Store, secrets: Secrets, id: int, presented: RawShares, tapes: Tapes)
    requires Sound(g, s, secrets) && GenuineEntries(s, secrets, presented)
    ensures Evict(g, s, id, presented, tapes).Ok? <==> exists e: nat, p: nat :: CanEvict(s, e, p, id, presented)
  {
    IndexOfIdFinds(s.rows, id);
    ShapeLoads(s);
    if IndexOfId(s.rows, id).Some? {
      var k := IndexOfId(s.rows, id).value;
      EvictAtIff(g, s, secrets, k, presented, tapes);
      forall e: nat, p: nat | CanEvict(s, e, p, id, presented) ensures e == k {
        assert s.rows[e].id == s.rows[k].id;
      }
      if exists p: nat :: CanEvict(s, k, p, id, presented) {
        var p: nat :| CanEvict(s, k, p, id, presented);
        assert exists e: nat, p: nat :: CanEvict(s, e, p, id, presented);
      }
    }
  }

  /** The leaf is off and unbound; its active siblings are sealed anew, each to its own key; nothing else changes. */
  ghost predicate OneLeafLess(s: Store, s': Store, e: nat, p: nat)
    requires e < |s.rows| && p < |s.rows|
  {
    && |s'.rows| == |s.rows| && s'.rows[e] == s.rows[e].(active := false)
    && (forall c :: 0 <= c < |s.rows| && c != e && c !in ActiveSet(s.rows, p) ==> s'.rows[c] == s.rows[c])
    && (forall c :: c in ActiveSet(s.rows, p) && c != e ==>
          s'.rows[c] == s.rows[c].(wrapped := s'.rows[c].wrapped) && SealedToOwner(s, s'.rows[c]))
    && Unbound(s, s', e)
    && s' == s.(rows := s'.rows, links := s'.links, whitelist := s'.whitelist)
  }

  /** And the siblings hold the shares presented for them, each with the sum of all blinding polynomials added. */
  lemma EvictedExact(g: Gf, s: Store, id: int, presented: RawShares, tapes: Tapes)
    returns (e: nat, p: nat, leaves: seq<nat>, raws: seq<Bytes>)
    requires WellShaped(s) && Evict(g, s, id, presented, tapes).Ok?
    ensures e < |s.rows| && s.rows[e].id == id && ParentRow(s.rows, e, p)
    ensures OneLeafLess(s, Evict(g, s, id, presented, tapes).value, e, p)
    ensures ActiveLeaves(s.rows, Children(s.rows, p), Some(e)) == Some(leaves) && s.rows[p].threshold.Some?
    ensures |raws| == |leaves| > 0 && s.rows[p].threshold.value > 0 && AllAsLong(raws, |raws[0]|) && |raws[0]| > 0
    ensures forall k :: 0 <= k < |leaves| ==>
      s.rows[leaves[k]].id in presented && raws[k] == presented[s.rows[leaves[k]].id]
    ensures SharesHeld(Evict(g, s, id, presented, tapes).value.rows, leaves,
                       AbsorbAll(g, raws, RefreshSum(g, tapes, s.rows[p].threshold.value, raws)))
  {
    e, p := EvictIs(g, s, id, presented, tapes);
    var keys: seq<PublicKey>;
    leaves, raws, keys := EvictBelowIs(g, s, e, p, presented, tapes);
    var s' := Evict(g, s, id, presented, tapes).value;
    EvictBelowUnbinds(g, s, e, p, presented, tapes);
    EvictedRowsExact(g, s, s', e, p, leaves, raws, keys, RefreshSum(g, tapes, s.rows[p].threshold.value, raws));
  }

  lemma EvictedRowsExact(g: Gf, s: Store, s': Store, e: nat, p: nat, leaves: seq<nat>, raws: seq<Bytes>,
                         keys: seq<PublicKey>, z: seq<Poly>)
    requires WellShaped(s) && Evicted(g, s, s', e, p, leaves, raws, keys, z)
    ensures |s'.rows| == |s.rows| && s'.rows[e] == s.rows[e].(active := false)
    ensures forall c :: 0 <= c < |s.rows| && c != e && c !in ActiveSet(s.rows, p) ==> s'.rows[c] == s.rows[c]
    ensures forall c :: c in ActiveSet(s.rows, p) && c != e ==>
      s'.rows[c] == s.rows[c].(wrapped := s'.rows[c].wrapped) && SealedToOwner(s, s'.rows[c])
    ensures SharesHeld(s'.rows, leaves, AbsorbAll(g, raws, z))
  {
    var off := s.rows[e := s.rows[e].(active := false)];
    EvictedRows(g, s, s', e, p, leaves, raws, keys, z);
    RewrittenExact(s, off, s'.rows, leaves, keys, AbsorbAll(g, raws, z));
  }
}
