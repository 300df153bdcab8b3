/** Whole runs of edits on a key tree: the polynomial invariant every edit keeps, and
that the dealt secret stays what a quorum reconstructs. */
module KeyRuns {
  import opened Errors
  import opened Field
  import opened Polynomials
  import opened Shamir
  import opened Pss
  import opened KeyTree
  import opened KeyStore

  /** The value dealt to each split node when the tree was made, by row id. */
  type Secrets = map<int, Bytes>

  /** The genuine value of a row: a leaf's is the share its wrapping holds. */
  function Value(rows: seq<Row>, secrets: Secrets, i: nat): Bytes
    requires i < |rows|
  {
    if rows[i].threshold.Some? then if rows[i].id in secrets then secrets[rows[i].id] else []
    else if rows[i].wrapped.Some? then rows[i].wrapped.value.plain
    else []
  }

  function ActiveSet(rows: seq<Row>, i: nat): set<nat>
    requires i < |rows|
  {
    set c: nat | c < |rows| && rows[c].active && rows[c].parent == Some(rows[i].id)
  }

  ghost predicate OnPolys(g: Gf, polys: seq<Poly>, v: Bytes) {
    |v| >= 1 && v[0] != 0 && v == ShareAt(g, polys, v[0])
  }

  /** At split i: the active children's values lie on polynomials of degree below the
  threshold with constant term the split's value, at distinct non-zero points, and there
  are at least threshold-many of them. */
  ghost predicate Family(g: Gf, rows: seq<Row>, secrets: Secrets, i: nat, polys: seq<Poly>)
    requires i < |rows| && rows[i].threshold.Some?
  {
    var active := ActiveSet(rows, i);
    && Value(rows, secrets, i) != []
    && Deals(polys, rows[i].threshold.value, Value(rows, secrets, i))
    && rows[i].threshold.value <= |active|
    && (forall c :: c in active ==> OnPolys(g, polys, Value(rows, secrets, c)))
    && (forall c, d :: c in active && d in active && c != d ==>
          Value(rows, secrets, c)[0] != Value(rows, secrets, d)[0])
  }

  ghost predicate HasParent(rows: seq<Row>, i: nat)
    requires i < |rows|
  {
    exists p :: 0 <= p < i && rows[p].threshold.Some? && rows[i].parent == Some(rows[p].id)
  }

  /** A row is an active split, or a leaf whose share is sealed to its own hardware key;
  every row but the first has its parent, a split, before it. */
  ghost predicate RowShape(s: Store, i: nat)
    requires i < |s.rows|
  {
    var row := s.rows[i];
    && (i == 0 <==> row.parent.None?)
    && (i > 0 ==> HasParent(s.rows, i))
    && RowKind(s, i)
    && row.id < s.nextId
  }

  ghost predicate RowKind(s: Store, i: nat)
    requires i < |s.rows|
  {
    var row := s.rows[i];
    && (row.threshold.Some? ==> row.hardwareKey.None? && row.wrapped.None? && row.active)
    && (row.threshold.None? ==>
          row.hardwareKey.Some? && row.wrapped.Some? && row.hardwareKey.value in s.hardware
          && row.wrapped.value.to == s.hardware[row.hardwareKey.value].public)
  }

  ghost predicate WellShaped(s: Store) {
    && s.rows != [] && Ordered(s.rows) && NamesDiffer(s.rows)
    && forall i :: 0 <= i < |s.rows| ==> RowShape(s, i)
  }

  ghost predicate Families(g: Gf, s: Store, secrets: Secrets) {
    forall i :: 0 <= i < |s.rows| && s.rows[i].threshold.Some? ==>
      exists polys :: Family(g, s.rows, secrets, i, polys)
  }

  ghost predicate Sound(g: Gf, s: Store, secrets: Secrets) {
    Lawful(g) && WellShaped(s) && Families(g, s, secrets)
  }

  // ----- a sound store loads to an arena with genuine values

  function Values(s: Store, secrets: Secrets): (vs: seq<Bytes>)
    ensures |vs| == |s.rows|
  {
    seq<Bytes>(|s.rows|, i requires 0 <= i < |s.rows| => Value(s.rows, secrets, i))
  }

  lemma SoundLoads(s: Store)
    requires WellShaped(s)
    ensures Load(s).Ok? && |Load(s).value.nodes| == |s.rows| && Load(s).value.root == 0
    ensures forall i :: 0 <= i < |s.rows| ==> Load(s).value.nodes[i] == LoadNode(s, i)
    ensures Rooted(Load(s).value)
  {
    forall i | 0 <= i < |s.rows| && s.rows[i].parent.Some?
      ensures IndexOfId(s.rows, s.rows[i].parent.value).Some?
      ensures IndexOfId(s.rows, s.rows[i].parent.value).value < i
    {
      assert RowShape(s, i);
      var p :| 0 <= p < i && s.rows[p].threshold.Some? && s.rows[i].parent == Some(s.rows[p].id);
      IndexOfIdIs(s.rows, p);
    }
    assert RowShape(s, 0);
    assert FirstRoot(s.rows, 0) == Some(0);
    var a := Load(s).value;
    forall i: nat, c: nat | i < |s.rows| ensures c in a.nodes[i].children <==> IsParent(a, i, c) {
      if c < |s.rows| {
        IndexOfIdIs(s.rows, i);
        if IsParent(a, i, c) {
          IndexOfIdFinds(s.rows, s.rows[c].parent.value);
        }
      }
    }
    forall i | 0 <= i < |s.rows| ensures a.nodes[i].parent.None? <==> i == 0 {
      assert RowShape(s, i);
    }
    assert Ranked(a, seq<nat>(|s.rows|, i requires 0 <= i => i));
  }

  lemma SoundIsGenuine(g: Gf, s: Store, secrets: Secrets)
    requires Sound(g, s, secrets)
    ensures Load(s).Ok? && Genuinely(g, Load(s).value, Values(s, secrets))
    ensures SplitsActive(Load(s).value) && ParentsSplit(Load(s).value)
  {
    SoundLoads(s);
    var a, vs := Load(s).value, Values(s, secrets);
    forall i | 0 <= i < |s.rows| ensures RowKind(s, i) && (s.rows[i].hardwareKey.Some? <==> s.rows[i].threshold.None?) {
      assert RowShape(s, i);
    }
    forall i | 0 <= i < |s.rows| && i != a.root ensures a.nodes[a.nodes[i].parent.value].threshold.Some? {
      assert RowShape(s, i);
      var p :| 0 <= p < i && s.rows[p].threshold.Some? && s.rows[i].parent == Some(s.rows[p].id);
      IndexOfIdIs(s.rows, p);
    }
    forall i | 0 <= i < |a.nodes| && a.nodes[i].threshold.Some? ensures exists polys :: DealtBy(g, a, vs, i, polys) {
      var polys :| Family(g, s.rows, secrets, i, polys);
      forall c | c in a.nodes[i].children && a.nodes[c].active ensures c in ActiveSet(s.rows, i) {
      }
      assert DealtBy(g, a, vs, i, polys);
    }
  }

  /** The holder of a leaf's hardware key can always unwrap its genuine share. */
  lemma HolderUnwraps(g: Gf, s: Store, secrets: Secrets, i: nat)
    requires Sound(g, s, secrets) && i < |s.rows| && s.rows[i].threshold.None?
    ensures s.rows[i].hardwareKey.Some? && s.rows[i].hardwareKey.value in s.hardware
    ensures UnwrapLeaf(s, i, SecretKey(s.hardware[s.rows[i].hardwareKey.value].public))
         == Ok(Value(s.rows, secrets, i))
  {
    assert RowShape(s, i);
  }

  // ----- what the edits keep

  /** A family whose active children and their values stay the same stays a family. */
  lemma FamilyFrame(g: Gf, rows: seq<Row>, rows': seq<Row>, secrets: Secrets, i: nat, polys: seq<Poly>)
    requires i < |rows| <= |rows'| && rows[i].threshold.Some? && Family(g, rows, secrets, i, polys)
    requires rows'[i].id == rows[i].id && rows'[i].threshold == rows[i].threshold
    requires ActiveSet(rows', i) == ActiveSet(rows, i)
    requires forall c :: c in ActiveSet(rows, i) ==> Value(rows', secrets, c) == Value(rows, secrets, c)
    ensures Family(g, rows', secrets, i, polys)
  {
  }

  /** Ids, parents, names and thresholds are as before; rows may have been appended. */
  ghost predicate SameSkeleton(rows: seq<Row>, rows': seq<Row>) {
    && |rows| <= |rows'|
    && forall i :: 0 <= i < |rows| ==>
         && rows'[i].id == rows[i].id && rows'[i].parent == rows[i].parent
         && rows'[i].name == rows[i].name && rows'[i].threshold == rows[i].threshold
  }

  lemma ParentFrame(rows: seq<Row>, rows': seq<Row>, i: nat)
    requires SameSkeleton(rows, rows') && i < |rows| && HasParent(rows, i)
    ensures HasParent(rows', i)
  {
    var p :| 0 <= p < i && rows[p].threshold.Some? && rows[i].parent == Some(rows[p].id);
    assert rows'[p].threshold.Some? && rows'[i].parent == Some(rows'[p].id);
  }

  lemma ShapeFrame(s: Store, s': Store)
    requires WellShaped(s) && SameSkeleton(s.rows, s'.rows) && |s.rows| == |s'.rows| && s.nextId <= s'.nextId
    requires forall i :: 0 <= i < |s'.rows| ==> RowKind(s', i)
    ensures WellShaped(s')
  {
    forall i | 0 <= i < |s'.rows| ensures RowShape(s', i) {
      assert RowShape(s, i) && RowKind(s', i);
      if i > 0 {
        ParentFrame(s.rows, s'.rows, i);
      }
    }
  }

  /** A rebound leaf keeps its share and changes only the key it is sealed to. */
  lemma RebindIs(s: Store, name: string, newKey: int, sk: SecretKey) returns (k: nat)
    requires RebindLeaf(s, name, newKey, sk).Ok?
    ensures k < |s.rows| && s.rows[k].hardwareKey.Some? && s.rows[k].wrapped.Some? && newKey in s.hardware
    ensures RebindLeaf(s, name, newKey, sk).value == s.(rows := s.rows[k :=
      s.rows[k].(hardwareKey := Some(newKey),
                 wrapped := Some(Sealed(s.hardware[newKey].public, s.rows[k].wrapped.value.plain)))])
  {
    IndexOfNameFinds(s.rows, name);
    k := IndexOfName(s.rows, name).value;
  }

  /** s' is s with leaf k rewrapped for another registered key. */
  ghost predicate Rewrapped(s: Store, s': Store, k: nat, newKey: int) {
    && newKey in s.hardware
    && k < |s.rows| && s.rows[k].hardwareKey.Some? && s.rows[k].wrapped.Some?
    && s' == s.(rows := s.rows[k :=
         s.rows[k].(hardwareKey := Some(newKey),
                    wrapped := Some(Sealed(s.hardware[newKey].public, s.rows[k].wrapped.value.plain)))])
  }

  lemma RewrappedShape(s: Store, s': Store, k: nat, newKey: int)
    requires WellShaped(s) && Rewrapped(s, s', k, newKey)
    ensures WellShaped(s') && SameSkeleton(s.rows, s'.rows)
  {
    forall i | 0 <= i < |s'.rows| ensures RowKind(s', i) {
      assert RowShape(s, i) && RowKind(s, i);
    }
    ShapeFrame(s, s');
  }

  lemma RewrappedFamilies(g: Gf, s: Store, s': Store, secrets: Secrets, k: nat, newKey: int)
    requires Sound(g, s, secrets) && Rewrapped(s, s', k, newKey)
    ensures Families(g, s', secrets)
  {
    var rows, rows' := s.rows, s'.rows;
    forall c | 0 <= c < |rows| ensures Value(rows', secrets, c) == Value(rows, secrets, c) {
    }
    forall i | 0 <= i < |rows'| && rows'[i].threshold.Some? ensures exists polys :: Family(g, rows', secrets, i, polys) {
      var polys :| Family(g, rows, secrets, i, polys);
      assert ActiveSet(rows', i) == ActiveSet(rows, i);
      FamilyFrame(g, rows, rows', secrets, i, polys);
    }
  }

  // ----- adding a leaf

  /** Every entry presented for an active leaf is that leaf's current share. */
  ghost predicate GenuineEntries(s: Store, secrets: Secrets, presented: RawShares) {
    forall i :: 0 <= i < |s.rows| && s.rows[i].threshold.None? && s.rows[i].active && s.rows[i].id in presented ==>
      presented[s.rows[i].id] == Value(s.rows, secrets, i)
  }

  lemma {:induction false} GivenGenuine(g: Gf, s: Store, secrets: Secrets, p: nat, polys: seq<Poly>,
                                        leaves: seq<nat>, presented: RawShares)
    requires p < |s.rows| && s.rows[p].threshold.Some? && Family(g, s.rows, secrets, p, polys)
    requires WellShaped(s) && In(s.rows, leaves) && GenuineEntries(s, secrets, presented)
    requires forall k :: 0 <= k < |leaves| ==> leaves[k] in ActiveSet(s.rows, p) && s.rows[leaves[k]].threshold.None?
    ensures Genuine(g, polys, Given(s.rows, leaves, presented))
  {
    if leaves != [] {
      GivenGenuine(g, s, secrets, p, polys, leaves[..|leaves| - 1], presented);
      var c := leaves[|leaves| - 1];
      assert OnPolys(g, polys, Value(s.rows, secrets, c));
    }
  }

  /** Recovering from genuine shares can only give the dealt secret. */
  lemma RecoverSecretGenuine(g: Gf, polys: seq<Poly>, t: nat, secret: Bytes, raws: seq<Bytes>)
    requires Lawful(g) && Deals(polys, t, secret) && secret != [] && Genuine(g, polys, raws) && |raws| >= t
    requires RecoverSecret(g, t, raws).Ok?
    ensures RecoverSecret(g, t, raws) == Ok(secret)
  {
    assert |polys[0]| == t;
    RecoverGenuine(g, polys, t, secret, raws);
  }

  /** The leaves an edit reseals are exactly the active children it is about. */
  lemma {:induction false} LeavesAreActive(s: Store, p: nat, skip: Option<nat>)
    requires p < |s.rows| && WellShaped(s)
    requires ActiveLeaves(s.rows, Children(s.rows, p), skip).Some?
    ensures var leaves := ActiveLeaves(s.rows, Children(s.rows, p), skip).value;
      && NoRepeats(leaves)
      && (forall c :: c in leaves <==> c in ActiveSet(s.rows, p) && skip != Some(c))
      && (forall c :: c in leaves ==> s.rows[c].threshold.None?)
  {
    ActiveLeavesAre(s.rows, Children(s.rows, p), skip);
    forall c | 0 <= c < |s.rows| ensures s.rows[c].hardwareKey.Some? <==> s.rows[c].threshold.None? {
      assert RowShape(s, c) && RowKind(s, c);
    }
  }

  lemma {:induction false} LeafKeysAre(s: Store, leaves: seq<nat>)
    requires AllLeaves(s.rows, leaves) && LeafKeys(s, leaves).Ok?
    ensures forall k :: 0 <= k < |leaves| ==>
      && s.rows[leaves[k]].hardwareKey.value in s.hardware
      && LeafKeys(s, leaves).value[k] == s.hardware[s.rows[leaves[k]].hardwareKey.value].public
  {
    if leaves != [] {
      LeafKeysAre(s, leaves[..|leaves| - 1]);
    }
  }

  /** Other families do not see an edit below p. */
  lemma OtherFamily(g: Gf, rows: seq<Row>, rows': seq<Row>, secrets: Secrets, p: nat, i: nat, polys: seq<Poly>)
    requires Ordered(rows) && p < |rows| && i < |rows| && i != p && rows[i].threshold.Some?
    requires Family(g, rows, secrets, i, polys) && SameSkeleton(rows, rows')
    requires forall c :: 0 <= c < |rows| && rows[c].parent != Some(rows[p].id) ==>
      rows'[c].active == rows[c].active && rows'[c].wrapped == rows[c].wrapped
    requires forall c :: |rows| <= c < |rows'| ==> rows'[c].parent == Some(rows[p].id)
    ensures Family(g, rows', secrets, i, polys)
  {
    assert rows[i].id != rows[p].id;
    assert ActiveSet(rows', i) == ActiveSet(rows, i);
    FamilyFrame(g, rows, rows', secrets, i, polys);
  }

  /** The row an added leaf gets. */
  function NewLeaf(s: Store, p: nat, name: string, key: int, share: Bytes): Row
    requires p < |s.rows| && key in s.hardware
  {
    Row(s.nextId, Some(s.rows[p].id), name, None, Some(key), Some(Sealed(s.hardware[key].public, share)), true)
  }

  /** s' is s with p's active leaves resealed, and one leaf more, from fresh polynomials. */
  ghost predicate Reshared(g: Gf, s: Store, s': Store, p: nat, leaves: seq<nat>, keys: seq<PublicKey>,
                           polys: seq<Poly>, newName: string, newKey: int)
  {
    && p < |s.rows| && s.rows[p].threshold.Some? && newKey in s.hardware
    && ActiveLeaves(s.rows, Children(s.rows, p), None) == Some(leaves)
    && LeafKeys(s, leaves) == Ok(keys) && |leaves| + 1 <= 255
    && (forall i :: 0 <= i < |s.rows| ==> s.rows[i].name != newName)
    && var shares := FreshShares(g, polys, |leaves| + 1);
       s' == s.(rows := Reseal(s.rows, leaves, keys, shares[..|leaves|])
                        + [NewLeaf(s, p, newName, newKey, shares[|leaves|])],
                nextId := s.nextId + 1)
  }

  /** A successful addition recovers a value at the parent and deals it to one leaf more. */
  lemma AddLeafDeals(g: Gf, s: Store, parentName: string, newName: string, newKey: int, presented: RawShares, tape: Tape)
    returns (p: nat, leaves: seq<nat>, secret: Bytes)
    requires AddLeaf(g, s, parentName, newName, newKey, presented, tape).Ok?
    ensures p < |s.rows| && s.rows[p].threshold.Some? && ActiveLeaves(s.rows, Children(s.rows, p), None) == Some(leaves)
    ensures s.rows[p].name == parentName && forall i :: 0 <= i < |s.rows| ==> s.rows[i].name != newName
    ensures |leaves| + 1 <= 255 && 0 < s.rows[p].threshold.value <= |Given(s.rows, leaves, presented)|
    ensures RecoverSecret(g, s.rows[p].threshold.value, Given(s.rows, leaves, presented)) == Ok(secret)
    ensures AddLeaf(g, s, parentName, newName, newKey, presented, tape) == DealOneMore(s, p, leaves, newName, newKey,
      FreshShares(g, Dealer(secret, s.rows[p].threshold.value, tape), |leaves| + 1))
  {
    IndexOfNameFinds(s.rows, parentName);
    IndexOfNameFinds(s.rows, newName);
    p := IndexOfName(s.rows, parentName).value;
    leaves := ActiveLeaves(s.rows, Children(s.rows, p), None).value;
    secret := RecoverSecret(g, s.rows[p].threshold.value, Given(s.rows, leaves, presented)).value;
  }

  /** Genuine shares presented for a split's leaves recover nothing but its value. */
  lemma GivenRecovers(g: Gf, s: Store, secrets: Secrets, p: nat, leaves: seq<nat>, presented: RawShares)
    requires Sound(g, s, secrets) && GenuineEntries(s, secrets, presented)
    requires p < |s.rows| && s.rows[p].threshold.Some? && ActiveLeaves(s.rows, Children(s.rows, p), None) == Some(leaves)
    requires In(s.rows, leaves) && s.rows[p].threshold.value <= |Given(s.rows, leaves, presented)|
    requires RecoverSecret(g, s.rows[p].threshold.value, Given(s.rows, leaves, presented)).Ok?
    ensures RecoverSecret(g, s.rows[p].threshold.value, Given(s.rows, leaves, presented)) == Ok(Value(s.rows, secrets, p))
  {
    LeavesAreActive(s, p, None);
    var current :| Family(g, s.rows, secrets, p, current);
    forall k | 0 <= k < |leaves| ensures leaves[k] in ActiveSet(s.rows, p) && s.rows[leaves[k]].threshold.None? {
      assert leaves[k] in leaves;
    }
    GivenGenuine(g, s, secrets, p, current, leaves, presented);
    RecoverSecretGenuine(g, current, s.rows[p].threshold.value, Value(s.rows, secrets, p), Given(s.rows, leaves, presented));
  }

  lemma AddLeafIs(g: Gf, s: Store, secrets: Secrets, parentName: string, newName: string, newKey: int,
                  presented: RawShares, tape: Tape)
    returns (p: nat, leaves: seq<nat>, keys: seq<PublicKey>, polys: seq<Poly>)
    requires Sound(g, s, secrets) && GenuineEntries(s, secrets, presented)
    requires AddLeaf(g, s, parentName, newName, newKey, presented, tape).Ok?
    ensures Reshared(g, s, AddLeaf(g, s, parentName, newName, newKey, presented, tape).value, p, leaves, keys, polys,
                     newName, newKey)
    ensures Deals(polys, s.rows[p].threshold.value, Value(s.rows, secrets, p)) && s.rows[p].name == parentName
    ensures s.rows[p].threshold.value > 0 && polys == Dealer(Value(s.rows, secrets, p), s.rows[p].threshold.value, tape)
  {
    var secret: Bytes;
    p, leaves, secret := AddLeafDeals(g, s, parentName, newName, newKey, presented, tape);
    GivenRecovers(g, s, secrets, p, leaves, presented);
    keys := LeafKeys(s, leaves).value;
    polys := Dealer(secret, s.rows[p].threshold.value, tape);
  }

  /** r is `rows` with new wrapped shares on the listed leaves only. */
  ghost predicate Rewritten(rows: seq<Row>, r: seq<Row>, leaves: seq<nat>, keys: seq<PublicKey>, shares: seq<Bytes>)
    requires |leaves| == |keys| == |shares| && In(rows, leaves)
  {
    && |r| == |rows|
    && (forall k :: 0 <= k < |leaves| ==>
          r[leaves[k]] == rows[leaves[k]].(wrapped := Some(Sealed(keys[k], shares[k]))))
    && (forall c :: 0 <= c < |rows| && c !in leaves ==> r[c] == rows[c])
  }

  lemma RewrittenRow(rows: seq<Row>, r: seq<Row>, leaves: seq<nat>, keys: seq<PublicKey>, shares: seq<Bytes>, c: nat)
    requires |leaves| == |keys| == |shares| && In(rows, leaves) && Rewritten(rows, r, leaves, keys, shares)
    requires c < |rows|
    ensures r[c] == rows[c].(wrapped := r[c].wrapped)
  {
    if c in leaves {
      var k :| 0 <= k < |leaves| && leaves[k] == c;
    }
  }

  lemma {:induction false} RewrittenKind(s: Store, s': Store, rows: seq<Row>, leaves: seq<nat>, keys: seq<PublicKey>,
                                         shares: seq<Bytes>, c: nat)
    requires c < |s.rows| == |rows| <= |s'.rows| && s'.hardware == s.hardware && RowKind(s, c)
    requires |leaves| == |keys| == |shares| && In(rows, leaves) && Rewritten(rows, s'.rows[..|rows|], leaves, keys, shares)
    requires AllLeaves(s.rows, leaves) && LeafKeys(s, leaves) == Ok(keys)
    requires rows[c] == s.rows[c] || (rows[c] == s.rows[c].(active := false) && s.rows[c].threshold.None?)
    ensures RowKind(s', c)
  {
    LeafKeysAre(s, leaves);
    RewrittenRow(rows, s'.rows[..|rows|], leaves, keys, shares, c);
    if c in leaves {
      var k :| 0 <= k < |leaves| && leaves[k] == c;
      assert s'.rows[..|rows|][leaves[k]] == rows[c].(wrapped := Some(Sealed(keys[k], shares[k])));
    }
  }

  ghost predicate Shares(g: Gf, rows: seq<Row>, secrets: Secrets, polys: seq<Poly>, members: seq<nat>, xs: seq<Byte>)
    requires In(rows, members) && |xs| == |members|
  {
    forall k :: 0 <= k < |members| ==> Value(rows, secrets, members[k]) == ShareAt(g, polys, xs[k])
  }

  ghost predicate Enumerates(members: seq<nat>, all: set<nat>) {
    NoRepeats(members) && forall c :: c in all <==> c in members
  }

  /** Members that hold shares of polys at distinct non-zero points form a family. */
  lemma NewFamily(g: Gf, rows: seq<Row>, secrets: Secrets, p: nat, polys: seq<Poly>, members: seq<nat>, xs: seq<Byte>)
    requires p < |rows| && rows[p].threshold.Some? && Value(rows, secrets, p) != []
    requires Deals(polys, rows[p].threshold.value, Value(rows, secrets, p))
    requires Enumerates(members, ActiveSet(rows, p)) && In(rows, members)
    requires |xs| == |members| >= rows[p].threshold.value && Distinct(xs) && 0 !in xs
    requires Shares(g, rows, secrets, polys, members, xs)
    ensures Family(g, rows, secrets, p, polys)
  {
    SetOfMembers(members, ActiveSet(rows, p));
    forall c | c in ActiveSet(rows, p) ensures OnPolys(g, polys, Value(rows, secrets, c)) {
      MemberOnPolys(g, rows, secrets, polys, members, xs, c);
    }
    forall c, d | c in ActiveSet(rows, p) && d in ActiveSet(rows, p) && c != d
      ensures Value(rows, secrets, c)[0] != Value(rows, secrets, d)[0]
    {
      MembersApart(g, rows, secrets, polys, members, xs, c, d);
    }
  }

  lemma MemberOnPolys(g: Gf, rows: seq<Row>, secrets: Secrets, polys: seq<Poly>, members: seq<nat>, xs: seq<Byte>, c: nat)
    requires In(rows, members) && |xs| == |members| && 0 !in xs && Shares(g, rows, secrets, polys, members, xs) && c in members
    ensures c < |rows| && OnPolys(g, polys, Value(rows, secrets, c))
  {
    var k :| 0 <= k < |members| && members[k] == c;
    assert xs[k] in xs;
  }

  lemma MembersApart(g: Gf, rows: seq<Row>, secrets: Secrets, polys: seq<Poly>, members: seq<nat>, xs: seq<Byte>, c: nat,
                     d: nat)
    requires In(rows, members) && |xs| == |members| && Distinct(xs) && Shares(g, rows, secrets, polys, members, xs)
    requires c in members && d in members && c != d
    ensures c < |rows| && d < |rows| && |Value(rows, secrets, c)| >= 1 && |Value(rows, secrets, d)| >= 1
    ensures Value(rows, secrets, c)[0] != Value(rows, secrets, d)[0]
  {
    var k :| 0 <= k < |members| && members[k] == c;
    var l :| 0 <= l < |members| && members[l] == d;
    assert xs[k] != xs[l];
  }

  lemma {:induction false} SetOfMembers(members: seq<nat>, all: set<nat>)
    requires Enumerates(members, all)
    ensures |all| == |members|
  {
    if members == [] {
      assert all == {};
    } else {
      var n := |members| - 1;
      assert members == members[..n] + [members[n]];
      assert members[n] !in members[..n];
      SetOfMembers(members[..n], all - {members[n]});
    }
  }

  /** Children of other splits keep their flag and their sealed share. */
  ghost predicate OthersStay(rows: seq<Row>, rows': seq<Row>, p: nat)
    requires p < |rows| <= |rows'|
  {
    forall c :: 0 <= c < |rows| && rows[c].parent != Some(rows[p].id) ==>
      rows'[c].active == rows[c].active && rows'[c].wrapped == rows[c].wrapped
  }

  /** New rows are leaves of split p. */
  ghost predicate NewBelow(rows: seq<Row>, rows': seq<Row>, p: nat)
    requires p < |rows| <= |rows'|
  {
    forall c :: |rows| <= c < |rows'| ==> rows'[c].parent == Some(rows[p].id) && rows'[c].threshold.None?
  }

  /** An edit below p that leaves p with a family leaves every split with one. */
  lemma FamiliesAfter(g: Gf, s: Store, s': Store, secrets: Secrets, p: nat, polys: seq<Poly>)
    requires Sound(g, s, secrets) && p < |s.rows| && SameSkeleton(s.rows, s'.rows)
    requires p < |s'.rows| && s'.rows[p].threshold.Some? && Family(g, s'.rows, secrets, p, polys)
    requires |s.rows| <= |s'.rows| && OthersStay(s.rows, s'.rows, p) && NewBelow(s.rows, s'.rows, p)
    ensures Families(g, s', secrets)
  {
    forall i | 0 <= i < |s'.rows| && s'.rows[i].threshold.Some?
      ensures exists q :: Family(g, s'.rows, secrets, i, q)
    {
      if i != p {
        assert i < |s.rows|;
        var q :| Family(g, s.rows, secrets, i, q);
        OtherFamily(g, s.rows, s'.rows, secrets, p, i, q);
      }
    }
  }

  lemma ResharedRows(g: Gf, s: Store, s': Store, p: nat, leaves: seq<nat>, keys: seq<PublicKey>,
                     polys: seq<Poly>, newName: string, newKey: int)
    requires WellShaped(s) && Reshared(g, s, s', p, leaves, keys, polys, newName, newKey)
    ensures |s'.rows| == |s.rows| + 1 && AllLeaves(s.rows, leaves) && |keys| == |leaves|
    ensures Rewritten(s.rows, s'.rows[..|s.rows|], leaves, keys, FreshShares(g, polys, |leaves| + 1)[..|leaves|])
    ensures SameSkeleton(s.rows, s'.rows)
    ensures s'.rows[|s.rows|] == NewLeaf(s, p, newName, newKey, FreshShares(g, polys, |leaves| + 1)[|leaves|])
    ensures NoRepeats(leaves) && (forall c :: c in leaves <==> c in ActiveSet(s.rows, p))
  {
    var shares := FreshShares(g, polys, |leaves| + 1)[..|leaves|];
    LeavesAreActive(s, p, None);
    ResealAt(s.rows, leaves, keys, shares);
    assert s'.rows[..|s.rows|] == Reseal(s.rows, leaves, keys, shares);
    forall c | 0 <= c < |s.rows| ensures s'.rows[c] == s.rows[c].(wrapped := s'.rows[c].wrapped) {
      RewrittenRow(s.rows, s'.rows[..|s.rows|], leaves, keys, shares, c);
    }
  }

  lemma ResharedShape(g: Gf, s: Store, s': Store, p: nat, leaves: seq<nat>, keys: seq<PublicKey>,
                      polys: seq<Poly>, newName: string, newKey: int)
    requires WellShaped(s) && Reshared(g, s, s', p, leaves, keys, polys, newName, newKey)
    ensures WellShaped(s')
  {
    var n := |s.rows|;
    ResharedRows(g, s, s', p, leaves, keys, polys, newName, newKey);
    NewRowShape(g, s, s', p, leaves, keys, polys, newName, newKey);
    forall i | 0 <= i < n ensures RowShape(s', i) && s.rows[i].id < s.nextId {
      ResharedRowShape(g, s, s', p, leaves, keys, polys, newName, newKey, i);
    }
    OneMoreRow(s.rows, s'.rows);
  }

  lemma NewRowShape(g: Gf, s: Store, s': Store, p: nat, leaves: seq<nat>, keys: seq<PublicKey>,
                    polys: seq<Poly>, newName: string, newKey: int)
    requires WellShaped(s) && Reshared(g, s, s', p, leaves, keys, polys, newName, newKey)
    ensures |s.rows| < |s'.rows| && RowShape(s', |s.rows|)
  {
    ResharedRows(g, s, s', p, leaves, keys, polys, newName, newKey);
    assert s'.rows[|s.rows|].parent == Some(s'.rows[p].id);
  }

  lemma OneMoreRow(rows: seq<Row>, more: seq<Row>)
    requires Ordered(rows) && NamesDiffer(rows) && |more| == |rows| + 1
    requires forall i :: 0 <= i < |rows| ==> more[i].id == rows[i].id < more[|rows|].id
    requires forall i :: 0 <= i < |rows| ==> more[i].name == rows[i].name != more[|rows|].name
    ensures Ordered(more) && NamesDiffer(more)
  {
  }

  lemma ResharedRowShape(g: Gf, s: Store, s': Store, p: nat, leaves: seq<nat>, keys: seq<PublicKey>,
                         polys: seq<Poly>, newName: string, newKey: int, i: nat)
    requires WellShaped(s) && Reshared(g, s, s', p, leaves, keys, polys, newName, newKey) && i < |s.rows|
    ensures i < |s'.rows| && RowShape(s', i) && s.rows[i].id < s.nextId
  {
    ResharedRows(g, s, s', p, leaves, keys, polys, newName, newKey);
    assert RowShape(s, i) && RowKind(s, i);
    if i > 0 {
      ParentFrame(s.rows, s'.rows, i);
    }
    RewrittenKind(s, s', s.rows, leaves, keys, FreshShares(g, polys, |leaves| + 1)[..|leaves|], i);
  }

  function PointsUpTo(n: nat): seq<Byte>
    requires n <= 255
  {
    seq<Byte>(n, k requires 0 <= k < n => Point(k))
  }

  lemma ResharedShares(g: Gf, s: Store, s': Store, secrets: Secrets, p: nat, leaves: seq<nat>, keys: seq<PublicKey>,
                       polys: seq<Poly>, newName: string, newKey: int)
    requires WellShaped(s) && Reshared(g, s, s', p, leaves, keys, polys, newName, newKey)
    ensures In(s'.rows, leaves + [|s.rows|])
    ensures Shares(g, s'.rows, secrets, polys, leaves + [|s.rows|], PointsUpTo(|leaves| + 1))
  {
    var n, m := |s.rows|, |leaves|;
    ResharedRows(g, s, s', p, leaves, keys, polys, newName, newKey);
    LeavesAreActive(s, p, None);
    forall k | 0 <= k < m
      ensures s'.rows[leaves[k]].threshold.None? && s'.rows[leaves[k]].wrapped.Some?
      ensures s'.rows[leaves[k]].wrapped.value.plain == ShareAt(g, polys, Point(k))
    {
      assert leaves[k] in leaves;
      assert s'.rows[..n][leaves[k]] == s'.rows[leaves[k]];
    }
  }

  lemma ResharedActive(g: Gf, s: Store, s': Store, p: nat, leaves: seq<nat>, keys: seq<PublicKey>,
                       polys: seq<Poly>, newName: string, newKey: int)
    requires WellShaped(s) && Reshared(g, s, s', p, leaves, keys, polys, newName, newKey)
    ensures p < |s'.rows| && Enumerates(leaves + [|s.rows|], ActiveSet(s'.rows, p))
  {
    var n := |s.rows|;
    ResharedRows(g, s, s', p, leaves, keys, polys, newName, newKey);
    forall c | 0 <= c < n ensures s'.rows[c].active == s.rows[c].active && s'.rows[c].parent == s.rows[c].parent {
      RewrittenRow(s.rows, s'.rows[..n], leaves, keys, FreshShares(g, polys, |leaves| + 1)[..|leaves|], c);
    }
    OneMoreActive(s.rows, s'.rows, p, leaves);
  }

  lemma OneMoreActive(rows: seq<Row>, rows': seq<Row>, p: nat, leaves: seq<nat>)
    requires p < |rows| && |rows'| == |rows| + 1 && rows'[p].id == rows[p].id && Enumerates(leaves, ActiveSet(rows, p))
    requires forall c :: 0 <= c < |rows| ==> rows'[c].active == rows[c].active && rows'[c].parent == rows[c].parent
    requires rows'[|rows|].active && rows'[|rows|].parent == Some(rows[p].id)
    ensures Enumerates(leaves + [|rows|], ActiveSet(rows', p))
  {
    var n := |rows|;
    forall j | 0 <= j < |leaves| ensures leaves[j] != n {
      assert leaves[j] in leaves && leaves[j] in ActiveSet(rows, p);
    }
    forall c | c in ActiveSet(rows', p) ensures c in leaves + [n] {
      assert c < n ==> c in ActiveSet(rows, p);
    }
    forall c | c in leaves + [n] ensures c in ActiveSet(rows', p) {
      assert c in leaves ==> c in ActiveSet(rows, p);
    }
  }

  lemma ResharedFamily(g: Gf, s: Store, s': Store, secrets: Secrets, p: nat, leaves: seq<nat>, keys: seq<PublicKey>,
                       polys: seq<Poly>, newName: string, newKey: int)
    requires Sound(g, s, secrets) && Reshared(g, s, s', p, leaves, keys, polys, newName, newKey)
    requires Deals(polys, s.rows[p].threshold.value, Value(s.rows, secrets, p))
    ensures p < |s'.rows| && s'.rows[p].threshold.Some? && Family(g, s'.rows, secrets, p, polys)
  {
    ResharedRows(g, s, s', p, leaves, keys, polys, newName, newKey);
    ResharedShares(g, s, s', secrets, p, leaves, keys, polys, newName, newKey);
    ResharedActive(g, s, s', p, leaves, keys, polys, newName, newKey);
    var current :| Family(g, s.rows, secrets, p, current);
    SetOfMembers(leaves, ActiveSet(s.rows, p));
    NewFamily(g, s'.rows, secrets, p, polys, leaves + [|s.rows|], PointsUpTo(|leaves| + 1));
  }

  lemma ResharedOthers(g: Gf, s: Store, s': Store, p: nat, leaves: seq<nat>, keys: seq<PublicKey>,
                       polys: seq<Poly>, newName: string, newKey: int)
    requires WellShaped(s) && Reshared(g, s, s', p, leaves, keys, polys, newName, newKey)
    ensures |s.rows| <= |s'.rows| && OthersStay(s.rows, s'.rows, p) && NewBelow(s.rows, s'.rows, p)
  {
    ResharedRows(g, s, s', p, leaves, keys, polys, newName, newKey);
    forall c | 0 <= c < |s.rows| && s.rows[c].parent != Some(s.rows[p].id)
      ensures s'.rows[c].active == s.rows[c].active && s'.rows[c].wrapped == s.rows[c].wrapped
    {
      assert c !in leaves;
      assert s'.rows[..|s.rows|][c] == s.rows[c];
    }
  }

  lemma ResharedSound(g: Gf, s: Store, s': Store, secrets: Secrets, p: nat, leaves: seq<nat>, keys: seq<PublicKey>,
                      polys: seq<Poly>, newName: string, newKey: int)
    requires Sound(g, s, secrets) && Reshared(g, s, s', p, leaves, keys, polys, newName, newKey)
    requires Deals(polys, s.rows[p].threshold.value, Value(s.rows, secrets, p))
    ensures Sound(g, s', secrets)
  {
    ResharedShape(g, s, s', p, leaves, keys, polys, newName, newKey);
    ResharedRows(g, s, s', p, leaves, keys, polys, newName, newKey);
    ResharedFamily(g, s, s', secrets, p, leaves, keys, polys, newName, newKey);
    ResharedOthers(g, s, s', p, leaves, keys, polys, newName, newKey);
    FamiliesAfter(g, s, s', secrets, p, polys);
  }

  // ----- old and new shares of one split

  /** Split p has the same value before and after, dealt by `was` before and by `now` after. */
  ghost predicate DealtAgain(g: Gf, s: Store, s': Store, secrets: Secrets, p: nat, was: seq<Poly>, now: seq<Poly>) {
    && p < |s.rows| && p < |s'.rows| && s.rows[p].threshold.Some? && s'.rows[p].threshold == s.rows[p].threshold
    && Value(s'.rows, secrets, p) == Value(s.rows, secrets, p)
    && Family(g, s.rows, secrets, p, was) && Family(g, s'.rows, secrets, p, now)
  }

  lemma ReshareDealsAgain(g: Gf, s: Store, s': Store, secrets: Secrets, p: nat, leaves: seq<nat>, keys: seq<PublicKey>,
                          now: seq<Poly>, newName: string, newKey: int)
    returns (was: seq<Poly>)
    requires Sound(g, s, secrets) && Reshared(g, s, s', p, leaves, keys, now, newName, newKey)
    requires Deals(now, s.rows[p].threshold.value, Value(s.rows, secrets, p))
    ensures DealtAgain(g, s, s', secrets, p, was, now)
  {
    ResharedRows(g, s, s', p, leaves, keys, now, newName, newKey);
    ResharedFamily(g, s, s', secrets, p, leaves, keys, now, newName, newKey);
    was :| Family(g, s.rows, secrets, p, was);
  }

  /** Adding a leaf leaves two generations of shares of one value: the old ones and the
  freshly dealt ones. */
  lemma AddLeafDealsAgain(g: Gf, s: Store, s': Store, secrets: Secrets, parentName: string, newName: string, newKey: int,
                          presented: RawShares, tape: Tape)
    returns (p: nat, was: seq<Poly>, now: seq<Poly>)
    requires Sound(g, s, secrets) && GenuineEntries(s, secrets, presented)
    requires AddLeaf(g, s, parentName, newName, newKey, presented, tape) == Ok(s')
    ensures DealtAgain(g, s, s', secrets, p, was, now) && s.rows[p].name == parentName
  {
    var leaves: seq<nat>, keys: seq<PublicKey>;
    p, leaves, keys, now := AddLeafIs(g, s, secrets, parentName, newName, newKey, presented, tape);
    was := ReshareDealsAgain(g, s, s', secrets, p, leaves, keys, now, newName, newKey);
  }

  /** The shares of these children of p, the listed ones as they were in `rows`, the others
  as they are in `rows'`. */
  ghost predicate Mixture(rows: seq<Row>, rows': seq<Row>, secrets: Secrets, p: nat, members: seq<nat>,
                          kept: set<nat>, shares: seq<Bytes>) {
    && |shares| == |members| && p < |rows| && p < |rows'|
    && (forall i :: 0 <= i < |members| && i in kept ==>
          members[i] in ActiveSet(rows, p) && shares[i] == Value(rows, secrets, members[i]))
    && (forall i :: 0 <= i < |members| && i !in kept ==>
          members[i] in ActiveSet(rows', p) && shares[i] == Value(rows', secrets, members[i]))
  }

  lemma MixtureIsGenuine(g: Gf, s: Store, s': Store, secrets: Secrets, p: nat, was: seq<Poly>, now: seq<Poly>,
                         members: seq<nat>, kept: set<nat>, shares: seq<Bytes>)
    requires DealtAgain(g, s, s', secrets, p, was, now) && Mixture(s.rows, s'.rows, secrets, p, members, kept, shares)
    ensures AllAsLong(shares, |now| + 1) && |now| > 0 && Mixed(g, was, now, shares, kept)
  {
    forall i | 0 <= i < |shares| ensures OnPolys(g, if i in kept then was else now, shares[i]) {
    }
  }

  /** Enough of these shares at distinct points to recover from. */
  ghost predicate Quorum(shares: seq<Bytes>, t: nat) {
    |shares| >= t && AllParse(shares) && Distinct(Xs(shares))
  }

  /** After a leaf is added, a quorum of shares from before it still recovers the split's value. */
  lemma OldQuorumRecovers(g: Gf, s: Store, s': Store, secrets: Secrets, parentName: string, newName: string, newKey: int,
                          presented: RawShares, tape: Tape, p: nat, members: seq<nat>, kept: set<nat>, shares: seq<Bytes>)
    requires Sound(g, s, secrets) && GenuineEntries(s, secrets, presented)
    requires AddLeaf(g, s, parentName, newName, newKey, presented, tape) == Ok(s')
    requires p < |s.rows| && s.rows[p].name == parentName && s.rows[p].threshold.Some?
    requires Mixture(s.rows, s'.rows, secrets, p, members, kept, shares) && Quorum(shares, s.rows[p].threshold.value)
    requires forall i :: 0 <= i < |members| ==> i in kept
    ensures Recover(g, s.rows[p].threshold.value, shares) == Ok(Value(s'.rows, secrets, p))
  {
    var at, was, now := AddLeafDealsAgain(g, s, s', secrets, parentName, newName, newKey, presented, tape);
    assert at == p;
    MixtureIsGenuine(g, s, s', secrets, p, was, now, members, kept, shares);
    GenerationRecovers(g, s, s', secrets, p, was, now, shares);
  }

  lemma GenerationRecovers(g: Gf, s: Store, s': Store, secrets: Secrets, p: nat, was: seq<Poly>, now: seq<Poly>,
                           shares: seq<Bytes>)
    requires Lawful(g) && DealtAgain(g, s, s', secrets, p, was, now)
    requires Quorum(shares, s.rows[p].threshold.value) && Genuine(g, was, shares)
    ensures Recover(g, s.rows[p].threshold.value, shares) == Ok(Value(s'.rows, secrets, p))
  {
    assert |was[0]| == s.rows[p].threshold.value;
    RecoverGenuine(g, was, s.rows[p].threshold.value, Value(s.rows, secrets, p), shares);
  }

  /** Recovery gives a string as long as the value, with byte k right if and only if the
  differences of the old shares from the new ones interpolate to zero there. */
  ghost predicate MixesTo(g: Gf, t: nat, value: Bytes, was: seq<Poly>, now: seq<Poly>, kept: set<nat>, shares: seq<Bytes>) {
    && AllParse(shares) && |was| == |now| == |value|
    && var r := Recover(g, t, shares);
       && r.Ok? && |r.value| == |value|
       && forall k :: 0 <= k < |value| ==>
            (r.value[k] == value[k] <==> Lagrange(g, Xs(shares), Differences(g, was[k], now[k], Xs(shares), kept), 0) == 0)
  }

  lemma GenerationsMix(g: Gf, s: Store, s': Store, secrets: Secrets, p: nat, was: seq<Poly>, now: seq<Poly>,
                       members: seq<nat>, kept: set<nat>, shares: seq<Bytes>)
    requires Lawful(g) && DealtAgain(g, s, s', secrets, p, was, now)
    requires Mixture(s.rows, s'.rows, secrets, p, members, kept, shares) && Quorum(shares, s.rows[p].threshold.value)
    ensures MixesTo(g, s.rows[p].threshold.value, Value(s'.rows, secrets, p), was, now, kept, shares)
  {
    MixtureIsGenuine(g, s, s', secrets, p, was, now, members, kept, shares);
    var t, value := s.rows[p].threshold.value, Value(s.rows, secrets, p);
    forall k | 0 <= k < |value|
      ensures Recover(g, t, shares).Ok? && |Recover(g, t, shares).value| == |value|
      ensures Recover(g, t, shares).value[k] == value[k] <==>
              Lagrange(g, Xs(shares), Differences(g, was[k], now[k], Xs(shares), kept), 0) == 0
    {
      MixedShares(g, was, now, t, value, shares, kept, k);
    }
    assert Recover(g, t, shares).Ok? by {
      MixedShares(g, was, now, t, value, shares, kept, 0);
    }
  }

  /** Old and new shares of the split a leaf was added to, mixed. */
  lemma MixedQuorum(g: Gf, s: Store, s': Store, secrets: Secrets, parentName: string, newName: string, newKey: int,
                    presented: RawShares, tape: Tape, p: nat, members: seq<nat>, kept: set<nat>, shares: seq<Bytes>)
    returns (was: seq<Poly>, now: seq<Poly>)
    requires Sound(g, s, secrets) && GenuineEntries(s, secrets, presented)
    requires AddLeaf(g, s, parentName, newName, newKey, presented, tape) == Ok(s')
    requires p < |s.rows| && s.rows[p].name == parentName && s.rows[p].threshold.Some?
    requires Mixture(s.rows, s'.rows, secrets, p, members, kept, shares) && Quorum(shares, s.rows[p].threshold.value)
    ensures DealtAgain(g, s, s', secrets, p, was, now)
    ensures MixesTo(g, s.rows[p].threshold.value, Value(s'.rows, secrets, p), was, now, kept, shares)
  {
    var at: nat;
    at, was, now := AddLeafDealsAgain(g, s, s', secrets, parentName, newName, newKey, presented, tape);
    assert at == p;
    GenerationsMix(g, s, s', secrets, p, was, now, members, kept, shares);
  }

  // ----- evicting a leaf

  /** s' is s with leaf e switched off and its remaining active siblings refreshed by z. */
  ghost predicate Evicted(g: Gf, s: Store, s': Store, e: nat, p: nat, leaves: seq<nat>, raws: seq<Bytes>,
                          keys: seq<PublicKey>, z: seq<Poly>)
  {
    && e < |s.rows| && p < |s.rows| && s.rows[e].active && s.rows[e].threshold.None?
    && s.rows[e].parent == Some(s.rows[p].id)
    && s.rows[p].threshold.Some? && 2 <= s.rows[p].threshold.value <= |leaves|
    && ActiveLeaves(s.rows, Children(s.rows, p), Some(e)) == Some(leaves)
    && LeafKeys(s, leaves) == Ok(keys) && |raws| == |leaves| && CanRefresh(raws, s.rows[p].threshold.value)
    && |raws[0]| == |z| + 1
    && s'.hardware == s.hardware && s'.nextId == s.nextId
    && s'.rows == Reseal(s.rows[e := s.rows[e].(active := false)], leaves, keys, AbsorbAll(g, raws, z))
  }

  lemma {:induction false} SurvivorsKeys(s: Store, leaves: seq<nat>, presented: RawShares)
    requires AllLeaves(s.rows, leaves) && Survivors(s, leaves, presented).Ok?
    ensures LeafKeys(s, leaves) == Ok(Survivors(s, leaves, presented).value.1)
  {
    if leaves != [] {
      SurvivorsKeys(s, leaves[..|leaves| - 1], presented);
    }
  }

  lemma EvictBelowIs(g: Gf, s: Store, e: nat, p: nat, presented: RawShares, tapes: Tapes)
    returns (leaves: seq<nat>, raws: seq<Bytes>, keys: seq<PublicKey>)
    requires e < |s.rows| && p < |s.rows| && s.rows[e].active && s.rows[e].threshold.None?
    requires s.rows[e].parent == Some(s.rows[p].id) && EvictBelow(g, s, e, p, presented, tapes).Ok?
    ensures s.rows[p].threshold.Some? && |raws| > 0 && |raws[0]| > 0 && s.rows[p].threshold.value > 0
    ensures Evicted(g, s, EvictBelow(g, s, e, p, presented, tapes).value, e, p, leaves, raws, keys,
                    RefreshSum(g, tapes, s.rows[p].threshold.value, raws))
    ensures forall k :: 0 <= k < |leaves| ==>
      s.rows[leaves[k]].id in presented && raws[k] == presented[s.rows[leaves[k]].id]
  {
    leaves := ActiveLeaves(s.rows, Children(s.rows, p), Some(e)).value;
    SurvivorsKeys(s, leaves, presented);
    raws, keys := Survivors(s, leaves, presented).value.0, Survivors(s, leaves, presented).value.1;
  }

  lemma EvictIs(g: Gf, s: Store, evictedId: int, presented: RawShares, tapes: Tapes) returns (e: nat, p: nat)
    requires WellShaped(s) && Evict(g, s, evictedId, presented, tapes).Ok?
    ensures e < |s.rows| && p < |s.rows| && s.rows[e].active && s.rows[e].threshold.None?
    ensures s.rows[e].id == evictedId && s.rows[e].parent == Some(s.rows[p].id)
    ensures Evict(g, s, evictedId, presented, tapes) == EvictBelow(g, s, e, p, presented, tapes)
  {
    IndexOfIdFinds(s.rows, evictedId);
    e := IndexOfId(s.rows, evictedId).value;
    assert RowShape(s, e) && RowKind(s, e);
    IndexOfIdFinds(s.rows, s.rows[e].parent.value);
    p := IndexOfId(s.rows, s.rows[e].parent.value).value;
  }

  lemma EvictedRows(g: Gf, s: Store, s': Store, e: nat, p: nat, leaves: seq<nat>, raws: seq<Bytes>,
                    keys: seq<PublicKey>, z: seq<Poly>)
    requires WellShaped(s) && Evicted(g, s, s', e, p, leaves, raws, keys, z)
    ensures var off := s.rows[e := s.rows[e].(active := false)];
      && |s'.rows| == |s.rows| && AllLeaves(s.rows, leaves) && In(off, leaves) && |keys| == |leaves|
      && Rewritten(off, s'.rows, leaves, keys, AbsorbAll(g, raws, z))
      && SameSkeleton(s.rows, s'.rows)
      && forall c :: 0 <= c < |off| ==> s'.rows[c] == off[c].(wrapped := s'.rows[c].wrapped)
    ensures NoRepeats(leaves) && (forall c :: c in leaves <==> c in ActiveSet(s.rows, p) && c != e)
  {
    var off := s.rows[e := s.rows[e].(active := false)];
    LeavesAreActive(s, p, Some(e));
    ResealAt(off, leaves, keys, AbsorbAll(g, raws, z));
    forall c | 0 <= c < |s.rows| ensures s'.rows[c] == off[c].(wrapped := s'.rows[c].wrapped) {
      RewrittenRow(off, s'.rows, leaves, keys, AbsorbAll(g, raws, z), c);
    }
  }

  lemma EvictedShape(g: Gf, s: Store, s': Store, e: nat, p: nat, leaves: seq<nat>, raws: seq<Bytes>,
                     keys: seq<PublicKey>, z: seq<Poly>)
    requires WellShaped(s) && Evicted(g, s, s', e, p, leaves, raws, keys, z)
    ensures WellShaped(s')
  {
    var off := s.rows[e := s.rows[e].(active := false)];
    EvictedRows(g, s, s', e, p, leaves, raws, keys, z);
    assert s'.rows[..|off|] == s'.rows;
    forall i | 0 <= i < |s'.rows| ensures RowKind(s', i) {
      assert RowShape(s, i) && RowKind(s, i);
      RewrittenKind(s, s', off, leaves, keys, AbsorbAll(g, raws, z), i);
    }
    ShapeFrame(s, s');
  }

  /** The survivors' new shares are shares of the summed polynomials at their old points. */
  lemma EvictedShares(g: Gf, s: Store, s': Store, secrets: Secrets, e: nat, p: nat, leaves: seq<nat>, raws: seq<Bytes>,
                      keys: seq<PublicKey>, z: seq<Poly>, polys: seq<Poly>)
    requires Lawful(g) && WellShaped(s) && Evicted(g, s, s', e, p, leaves, raws, keys, z)
    requires Family(g, s.rows, secrets, p, polys) && Deals(z, s.rows[p].threshold.value, Zeros(|polys|))
    requires In(s.rows, leaves) && RawsAre(s, secrets, leaves, raws)
    ensures In(s'.rows, leaves)
    ensures Shares(g, s'.rows, secrets, AddPolys(g, polys, z), leaves, Xs(raws))
  {
    EvictedRows(g, s, s', e, p, leaves, raws, keys, z);
    LeavesAreActive(s, p, Some(e));
    forall k | 0 <= k < |leaves|
      ensures Value(s'.rows, secrets, leaves[k]) == ShareAt(g, AddPolys(g, polys, z), Xs(raws)[k])
    {
      assert leaves[k] in leaves;
      assert OnPolys(g, polys, Value(s.rows, secrets, leaves[k]));
      AbsorbedIsShare(g, polys, z, raws[k][0]);
    }
  }

  /** The old shares presented for the survivors are their current ones. */
  ghost predicate RawsAre(s: Store, secrets: Secrets, leaves: seq<nat>, raws: seq<Bytes>)
    requires In(s.rows, leaves)
  {
    |raws| == |leaves| && forall k :: 0 <= k < |leaves| ==> raws[k] == Value(s.rows, secrets, leaves[k])
  }

  lemma EvictedPolys(g: Gf, s: Store, s': Store, secrets: Secrets, e: nat, p: nat, leaves: seq<nat>, raws: seq<Bytes>,
                     keys: seq<PublicKey>, z: seq<Poly>, polys: seq<Poly>)
    requires Lawful(g) && WellShaped(s) && Evicted(g, s, s', e, p, leaves, raws, keys, z)
    requires Family(g, s.rows, secrets, p, polys) && Deals(z, s.rows[p].threshold.value, Zeros(|polys|))
    requires In(s.rows, leaves) && RawsAre(s, secrets, leaves, raws)
    ensures p < |s'.rows| && s'.rows[p].threshold.Some? && Family(g, s'.rows, secrets, p, AddPolys(g, polys, z))
  {
    EvictedShares(g, s, s', secrets, e, p, leaves, raws, keys, z, polys);
    AddPolysDeals(g, polys, z, s.rows[p].threshold.value, Value(s.rows, secrets, p), Zeros(|polys|));
    EvictedFamily(g, s, s', secrets, e, p, leaves, raws, keys, z, AddPolys(g, polys, z));
  }

  lemma EvictedOthers(g: Gf, s: Store, s': Store, e: nat, p: nat, leaves: seq<nat>, raws: seq<Bytes>,
                      keys: seq<PublicKey>, z: seq<Poly>)
    requires WellShaped(s) && Evicted(g, s, s', e, p, leaves, raws, keys, z)
    ensures |s.rows| <= |s'.rows| && SameSkeleton(s.rows, s'.rows)
    ensures OthersStay(s.rows, s'.rows, p) && NewBelow(s.rows, s'.rows, p)
  {
    EvictedRows(g, s, s', e, p, leaves, raws, keys, z);
    forall c | 0 <= c < |s.rows| && s.rows[c].parent != Some(s.rows[p].id)
      ensures s'.rows[c].active == s.rows[c].active && s'.rows[c].wrapped == s.rows[c].wrapped
    {
      assert c !in leaves;
    }
  }

  lemma EvictedSound(g: Gf, s: Store, s': Store, secrets: Secrets, e: nat, p: nat, leaves: seq<nat>, raws: seq<Bytes>,
                     keys: seq<PublicKey>, z: seq<Poly>, polys: seq<Poly>)
    requires Sound(g, s, secrets) && Evicted(g, s, s', e, p, leaves, raws, keys, z)
    requires Family(g, s.rows, secrets, p, polys) && Deals(z, s.rows[p].threshold.value, Zeros(|polys|))
    requires In(s.rows, leaves) && RawsAre(s, secrets, leaves, raws)
    ensures Sound(g, s', secrets)
  {
    EvictedShape(g, s, s', e, p, leaves, raws, keys, z);
    EvictedPolys(g, s, s', secrets, e, p, leaves, raws, keys, z, polys);
    EvictedOthers(g, s, s', e, p, leaves, raws, keys, z);
    FamiliesAfter(g, s, s', secrets, p, AddPolys(g, polys, z));
  }

  lemma EvictedFamily(g: Gf, s: Store, s': Store, secrets: Secrets, e: nat, p: nat, leaves: seq<nat>, raws: seq<Bytes>,
                      keys: seq<PublicKey>, z: seq<Poly>, polys: seq<Poly>)
    requires WellShaped(s) && Evicted(g, s, s', e, p, leaves, raws, keys, z)
    requires Deals(polys, s.rows[p].threshold.value, Value(s.rows, secrets, p)) && Value(s.rows, secrets, p) != []
    requires In(s'.rows, leaves) && Shares(g, s'.rows, secrets, polys, leaves, Xs(raws))
    ensures p < |s'.rows| && s'.rows[p].threshold.Some? && Family(g, s'.rows, secrets, p, polys)
  {
    EvictedRows(g, s, s', e, p, leaves, raws, keys, z);
    forall c | c in ActiveSet(s'.rows, p) ensures c in leaves {
      assert c in ActiveSet(s.rows, p) && c != e;
    }
    forall c | c in leaves ensures c in ActiveSet(s'.rows, p) {
      assert c in ActiveSet(s.rows, p) && c != e;
    }
    NewFamily(g, s'.rows, secrets, p, polys, leaves, Xs(raws));
  }

  /** After an eviction the leaf is off, and exactly the links and whitelist rows that named it are gone. */
  lemma EvictUnbinds(g: Gf, s: Store, evictedId: int, presented: RawShares, tapes: Tapes) returns (e: nat)
    requires WellShaped(s) && Evict(g, s, evictedId, presented, tapes).Ok?
    ensures var s' := Evict(g, s, evictedId, presented, tapes).value;
      && e < |s.rows| == |s'.rows| && s.rows[e].id == evictedId && s.rows[e].active && !s'.rows[e].active
      && (forall c :: 0 <= c < |s.rows| && c != e ==> s'.rows[c] == s.rows[c].(wrapped := s'.rows[c].wrapped))
      && Unbound(s, s', e)
  {
    var p: nat;
    e, p := EvictIs(g, s, evictedId, presented, tapes);
    var leaves, raws, keys := EvictBelowIs(g, s, e, p, presented, tapes);
    var s' := Evict(g, s, evictedId, presented, tapes).value;
    var z := RefreshSum(g, tapes, s.rows[p].threshold.value, raws);
    EvictedRows(g, s, s', e, p, leaves, raws, keys, z);
    EvictedOff(g, s, s', e, p, leaves, raws, keys, z);
    EvictBelowUnbinds(g, s, e, p, presented, tapes);
  }

  lemma EvictedOff(g: Gf, s: Store, s': Store, e: nat, p: nat, leaves: seq<nat>, raws: seq<Bytes>,
                   keys: seq<PublicKey>, z: seq<Poly>)
    requires WellShaped(s) && Evicted(g, s, s', e, p, leaves, raws, keys, z)
    ensures |s'.rows| == |s.rows| && !s'.rows[e].active
    ensures forall c :: 0 <= c < |s.rows| && c != e ==> s'.rows[c] == s.rows[c].(wrapped := s'.rows[c].wrapped)
  {
    EvictedRows(g, s, s', e, p, leaves, raws, keys, z);
  }

  /** Exactly the links and whitelist rows that name the evicted leaf are gone. */
  ghost predicate Unbound(s: Store, s': Store, e: nat)
    requires e < |s.rows|
  {
    && (forall l :: l in s'.links <==> l in s.links && l.0 != s.rows[e].id && l.1 != s.rows[e].id)
    && (forall w :: w in s'.whitelist <==> (w in s.whitelist && w.0 != s.rows[e].id
          && !(w.1 == s.rows[e].name && exists c :: 0 <= c < |s.rows| && s.rows[c].id == w.0)))
  }

  lemma EvictBelowUnbinds(g: Gf, s: Store, e: nat, p: nat, presented: RawShares, tapes: Tapes)
    requires e < |s.rows| && p < |s.rows| && EvictBelow(g, s, e, p, presented, tapes).Ok?
    ensures Unbound(s, EvictBelow(g, s, e, p, presented, tapes).value, e)
  {
    var s' := EvictBelow(g, s, e, p, presented, tapes).value;
    assert s'.links == WithoutBindings(s, e).links && s'.whitelist == WithoutBindings(s, e).whitelist;
  }

  // ----- runs

  datatype Edit =
    | Rebind(name: string, newKey: int, sk: SecretKey)
    | Add(parentName: string, newName: string, newKey: int, presented: RawShares, tape: Tape)
    | EvictLeaf(id: int, presented: RawShares, tapes: Tapes)
    | RegisterKey(keyId: int, key: HardwareKey)
    | RevokeKey(keyId: int)

  /** One edit; registering and revoking hardware keys may happen in between. */
  function Attempt(g: Gf, s: Store, e: Edit): Result<Store> {
    match e
    case Rebind(name, newKey, sk) => RebindLeaf(s, name, newKey, sk)
    case Add(parentName, newName, newKey, presented, tape) => AddLeaf(g, s, parentName, newName, newKey, presented, tape)
    case EvictLeaf(id, presented, tapes) => Evict(g, s, id, presented, tapes)
    case RegisterKey(id, key) => if id in s.hardware then Err(Db) else Ok(s.(hardware := s.hardware[id := key]))
    case RevokeKey(id) =>
      if id in s.hardware then Ok(s.(hardware := s.hardware[id := s.hardware[id].(revoked := true)])) else Ok(s)
  }

  /** A failing edit is rolled back. */
  function After(g: Gf, s: Store, e: Edit): Store {
    if Attempt(g, s, e).Ok? then Attempt(g, s, e).value else s
  }

  function Run(g: Gf, s: Store, edits: seq<Edit>): Store
    decreases edits
  {
    if edits == [] then s else Run(g, After(g, s, edits[0]), edits[1..])
  }

  ghost predicate GenuineEdit(s: Store, secrets: Secrets, e: Edit) {
    match e
    case Add(_, _, _, presented, _) => GenuineEntries(s, secrets, presented)
    case EvictLeaf(_, presented, _) => GenuineEntries(s, secrets, presented)
    case _ => true
  }

  /** At every edit of the run, the shares presented are current ones. */
  ghost predicate GenuineRun(g: Gf, s: Store, secrets: Secrets, edits: seq<Edit>)
    decreases edits
  {
    edits != [] ==> GenuineEdit(s, secrets, edits[0]) && GenuineRun(g, After(g, s, edits[0]), secrets, edits[1..])
  }

  lemma KeysSound(g: Gf, s: Store, s': Store, secrets: Secrets)
    requires Sound(g, s, secrets) && s'.rows == s.rows && s'.nextId == s.nextId
    requires forall id :: id in s.hardware ==> id in s'.hardware && s'.hardware[id].public == s.hardware[id].public
    ensures Sound(g, s', secrets)
  {
    forall i | 0 <= i < |s'.rows| ensures RowKind(s', i) {
      assert RowShape(s, i) && RowKind(s, i);
      var h := s.rows[i].hardwareKey;
      if h.Some? {
        var id: int := h.value;
        assert id in s.hardware ==> id in s'.hardware;
      }
    }
    ShapeFrame(s, s');
    forall i | 0 <= i < |s'.rows| && s'.rows[i].threshold.Some?
      ensures exists polys :: Family(g, s'.rows, secrets, i, polys)
    {
      var polys :| Family(g, s.rows, secrets, i, polys);
    }
  }

  /** Every edit that is given genuine current shares keeps the invariant and the root. */
  lemma EditSound(g: Gf, s: Store, secrets: Secrets, e: Edit)
    requires Sound(g, s, secrets) && GenuineEdit(s, secrets, e)
    ensures Sound(g, After(g, s, e), secrets)
    ensures After(g, s, e).rows[0].id == s.rows[0].id && After(g, s, e).rows[0].threshold == s.rows[0].threshold
  {
    if Attempt(g, s, e).Ok? {
      var s' := Attempt(g, s, e).value;
      match e
      case Rebind(name, newKey, sk) =>
        var k := RebindIs(s, name, newKey, sk);
        RewrappedShape(s, s', k, newKey);
        RewrappedFamilies(g, s, s', secrets, k, newKey);
      case Add(parentName, newName, newKey, presented, tape) =>
        var p, leaves, keys, polys := AddLeafIs(g, s, secrets, parentName, newName, newKey, presented, tape);
        ResharedRows(g, s, s', p, leaves, keys, polys, newName, newKey);
        ResharedSound(g, s, s', secrets, p, leaves, keys, polys, newName, newKey);
      case EvictLeaf(id, presented, tapes) =>
        EvictLeafSound(g, s, secrets, id, presented, tapes);
      case RegisterKey(_, _) => KeysSound(g, s, s', secrets);
      case RevokeKey(_) => KeysSound(g, s, s', secrets);
    }
  }

  lemma EvictLeafSound(g: Gf, s: Store, secrets: Secrets, id: int, presented: RawShares, tapes: Tapes)
    requires Sound(g, s, secrets) && GenuineEntries(s, secrets, presented) && Evict(g, s, id, presented, tapes).Ok?
    ensures Sound(g, Evict(g, s, id, presented, tapes).value, secrets)
    ensures SameSkeleton(s.rows, Evict(g, s, id, presented, tapes).value.rows)
  {
    var s' := Evict(g, s, id, presented, tapes).value;
    var e, p := EvictIs(g, s, id, presented, tapes);
    var leaves, raws, keys := EvictBelowIs(g, s, e, p, presented, tapes);
    var z := RefreshSum(g, tapes, s.rows[p].threshold.value, raws);
    var polys :| Family(g, s.rows, secrets, p, polys);
    EvictedRows(g, s, s', e, p, leaves, raws, keys, z);
    SurvivorsGenuine(s, secrets, e, p, leaves, raws, presented);
    RefreshDealsZero(g, s, secrets, p, polys, leaves, raws, tapes);
    EvictedSound(g, s, s', secrets, e, p, leaves, raws, keys, z, polys);
    EvictedOthers(g, s, s', e, p, leaves, raws, keys, z);
  }

  /** The survivors are active children of the split, and their presented shares are their current ones. */
  lemma SurvivorsGenuine(s: Store, secrets: Secrets, e: nat, p: nat, leaves: seq<nat>, raws: seq<Bytes>, presented: RawShares)
    requires WellShaped(s) && p < |s.rows| && ActiveLeaves(s.rows, Children(s.rows, p), Some(e)) == Some(leaves)
    requires GenuineEntries(s, secrets, presented) && |raws| == |leaves| && In(s.rows, leaves)
    requires forall k :: 0 <= k < |leaves| ==>
      s.rows[leaves[k]].id in presented && raws[k] == presented[s.rows[leaves[k]].id]
    ensures RawsAre(s, secrets, leaves, raws)
    ensures forall k :: 0 <= k < |leaves| ==> leaves[k] in ActiveSet(s.rows, p)
  {
    LeavesAreActive(s, p, Some(e));
    forall k | 0 <= k < |leaves| ensures raws[k] == Value(s.rows, secrets, leaves[k]) {
      assert leaves[k] in leaves;
    }
  }

  /** The summed refresh polynomials share zero, one for each byte of the split's value. */
  lemma RefreshDealsZero(g: Gf, s: Store, secrets: Secrets, p: nat, polys: seq<Poly>, leaves: seq<nat>,
                         raws: seq<Bytes>, tapes: Tapes)
    requires Lawful(g) && p < |s.rows| && s.rows[p].threshold.Some? && Family(g, s.rows, secrets, p, polys)
    requires In(s.rows, leaves) && RawsAre(s, secrets, leaves, raws) && |leaves| > 0 && leaves[0] in ActiveSet(s.rows, p)
    requires 0 < s.rows[p].threshold.value && |raws[0]| > 0
    ensures Deals(RefreshSum(g, tapes, s.rows[p].threshold.value, raws), s.rows[p].threshold.value, Zeros(|polys|))
  {
    assert OnPolys(g, polys, Value(s.rows, secrets, leaves[0]));
    BlindingSumDealsZero(g, Draws(tapes, |raws|), s.rows[p].threshold.value, |raws[0]| - 1, |raws|);
  }

  lemma {:induction false} RunSound(g: Gf, s: Store, secrets: Secrets, edits: seq<Edit>)
    requires Sound(g, s, secrets) && GenuineRun(g, s, secrets, edits)
    ensures Sound(g, Run(g, s, edits), secrets)
    ensures Run(g, s, edits).rows[0].id == s.rows[0].id && Run(g, s, edits).rows[0].threshold == s.rows[0].threshold
    decreases edits
  {
    if edits != [] {
      EditSound(g, s, secrets, edits[0]);
      RunSound(g, After(g, s, edits[0]), secrets, edits[1..]);
    }
  }

  /** The secret survives every run: after any edits given genuine current shares, a
  presentation of genuine (or unparsable) entries reconstructs the secret dealt at the
  start if it meets the recursive threshold predicate, and fails otherwise. */
  lemma {:induction false} WholeRunReconstructs(g: Gf, s: Store, secrets: Secrets, edits: seq<Edit>, raw: RawShares)
    requires Sound(g, s, secrets) && GenuineRun(g, s, secrets, edits) && s.rows[0].threshold.Some?
    ensures var s' := Run(g, s, edits);
      && Sound(g, s', secrets) && Load(s').Ok? && Rooted(Load(s').value)
      && |Load(s').value.nodes| == |s'.rows|
      && (Presented(Load(s').value, Values(s', secrets), raw) ==>
            Reconstruct(g, Load(s').value, raw)
              == if Resolves(Load(s').value, 0, raw) then Ok(Value(s.rows, secrets, 0)) else Err(QuorumNotMet))
  {
    RunSound(g, s, secrets, edits);
    var s' := Run(g, s, edits);
    SoundLoads(s');
    SoundIsGenuine(g, s', secrets);
    var a := Load(s').value;
    if Presented(a, Values(s', secrets), raw) {
      AnswerExact(g, a, Values(s', secrets), 0, raw);
    }
  }
}
