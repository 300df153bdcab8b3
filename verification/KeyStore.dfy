/** The rows behind a key tree and the operations that edit them in place: load, rebind a
leaf, add a leaf and reshare, evict a leaf and refresh (`src/key_tree.rs`). */
module KeyStore {
  import opened Errors
  import opened Field
  import opened Polynomials
  import opened Shamir
  import opened Pss
  import opened KeyTree

  // ----- ideal sealed boxes

  type PublicKey = Bytes

  /** A secret key is known by the public key it belongs to. */
  datatype SecretKey = SecretKey(public: PublicKey)

  /** A share sealed to a public key opens with that key's secret, and with no other. */
  datatype Sealed = Sealed(to: PublicKey, plain: Bytes)

  function Unseal(sk: SecretKey, box: Sealed): Option<Bytes> {
    if sk.public == box.to then Some(box.plain) else None
  }

  // ----- rows

  datatype HardwareKey = HardwareKey(public: PublicKey, encryption: bool, revoked: bool)

  datatype Row = Row(
    id: int,
    parent: Option<int>,
    name: string,
    threshold: Option<nat>,
    hardwareKey: Option<int>,
    wrapped: Option<Sealed>,
    active: bool)

  /** The rows of one key in id order, with the tables its operations touch. The next id is above every
  id in the table, other keys' rows included; nothing here deletes a row. */
  datatype Store = Store(
    rows: seq<Row>,
    hardware: map<int, HardwareKey>,
    whitelist: set<(int, string)>,
    links: set<(int, int)>,
    nextId: int)

  /** A new row's id is larger than all others, and queries order by it. */
  ghost predicate Ordered(rows: seq<Row>) {
    forall i, j :: 0 <= i < j < |rows| ==> rows[i].id < rows[j].id
  }

  ghost predicate NamesDiffer(rows: seq<Row>) {
    forall i, j :: 0 <= i < j < |rows| ==> rows[i].name != rows[j].name
  }

  function IndexOfId(rows: seq<Row>, id: int): Option<nat> {
    if rows == [] then None
    else if rows[|rows| - 1].id == id then Some(|rows| - 1)
    else IndexOfId(rows[..|rows| - 1], id)
  }

  function IndexOfName(rows: seq<Row>, name: string): Option<nat> {
    if rows == [] then None
    else if rows[|rows| - 1].name == name then Some(|rows| - 1)
    else IndexOfName(rows[..|rows| - 1], name)
  }

  lemma {:induction false} IndexOfIdFinds(rows: seq<Row>, id: int)
    ensures match IndexOfId(rows, id)
      case Some(i) => i < |rows| && rows[i].id == id
      case None => forall i :: 0 <= i < |rows| ==> rows[i].id != id
  {
    if rows != [] && rows[|rows| - 1].id != id {
      IndexOfIdFinds(rows[..|rows| - 1], id);
    }
  }

  lemma {:induction false} IndexOfIdIs(rows: seq<Row>, i: nat)
    requires Ordered(rows) && i < |rows|
    ensures IndexOfId(rows, rows[i].id) == Some(i)
  {
    IndexOfIdFinds(rows, rows[i].id);
  }

  lemma {:induction false} IndexOfNameFinds(rows: seq<Row>, name: string)
    ensures match IndexOfName(rows, name)
      case Some(i) => i < |rows| && rows[i].name == name
      case None => forall i :: 0 <= i < |rows| ==> rows[i].name != name
  {
    if rows != [] && rows[|rows| - 1].name != name {
      IndexOfNameFinds(rows[..|rows| - 1], name);
    }
  }

  // ----- loading the arena

  /** The indices cs are rows. */
  ghost predicate In(rows: seq<Row>, cs: seq<nat>) {
    forall k :: 0 <= k < |cs| ==> cs[k] < |rows|
  }

  /** The indices cs are leaf rows. */
  ghost predicate AllLeaves(rows: seq<Row>, cs: seq<nat>) {
    forall k :: 0 <= k < |cs| ==> cs[k] < |rows| && rows[cs[k]].hardwareKey.Some?
  }

  /** The rows before j whose parent is row i, in order. */
  function ChildrenBelow(rows: seq<Row>, i: nat, j: nat): (cs: seq<nat>)
    requires i < |rows| && j <= |rows|
    ensures forall c :: c in cs <==> 0 <= c < j && rows[c].parent == Some(rows[i].id)
    ensures NoRepeats(cs) && In(rows, cs)
  {
    if j == 0 then []
    else
      var rest := ChildrenBelow(rows, i, j - 1);
      if rows[j - 1].parent == Some(rows[i].id) then rest + [j - 1] else rest
  }

  function Children(rows: seq<Row>, i: nat): (cs: seq<nat>)
    requires i < |rows|
    ensures In(rows, cs)
  {
    ChildrenBelow(rows, i, |rows|)
  }

  function BridgesOf(whitelist: set<(int, string)>, id: int): set<string> {
    set e | e in whitelist && e.0 == id :: e.1
  }

  function LoadNode(s: Store, i: nat): KeyNode
    requires i < |s.rows|
  {
    var row := s.rows[i];
    KeyNode(row.id, row.name,
            if row.parent.None? then None else IndexOfId(s.rows, row.parent.value),
            Children(s.rows, i), row.threshold, row.active, row.hardwareKey,
            BridgesOf(s.whitelist, row.id))
  }

  function Orphans(rows: seq<Row>): bool {
    exists i :: 0 <= i < |rows| && rows[i].parent.Some? && IndexOfId(rows, rows[i].parent.value).None?
  }

  function FirstRoot(rows: seq<Row>, j: nat): Option<nat>
    requires j <= |rows|
    decreases |rows| - j
  {
    if j == |rows| then None
    else if rows[j].parent.None? then Some(j)
    else FirstRoot(rows, j + 1)
  }

  /** What `KeyQuorumTree::load` builds. */
  function Load(s: Store): Result<Arena> {
    if s.rows == [] then Err(NodeNotFound)
    else if exists i, j :: 0 <= i < j < |s.rows| && s.rows[i].name == s.rows[j].name then Err(DuplicateNodeLabel)
    else if Orphans(s.rows) then Err(NodeNotFound)
    else match FirstRoot(s.rows, 0)
      case None => Err(NodeNotFound)
      case Some(root) => Ok(Arena(seq(|s.rows|, i requires 0 <= i < |s.rows| => LoadNode(s, i)), root))
  }

  // ----- the edits, as functions of the store; an error leaves the store as it was

  /** `get_active_encryption_key` */
  function ActiveKey(s: Store, id: int): Result<PublicKey> {
    if id !in s.hardware then Err(Db)
    else if !s.hardware[id].encryption then Err(WrongKeyType)
    else if s.hardware[id].revoked then Err(KeyRevoked)
    else Ok(s.hardware[id].public)
  }

  /** `unwrap_leaf_share` */
  function UnwrapLeaf(s: Store, i: nat, sk: SecretKey): Result<Bytes>
    requires i < |s.rows|
  {
    var row := s.rows[i];
    if row.hardwareKey.None? || row.wrapped.None? then Err(NodeNotFound)
    else if row.hardwareKey.value !in s.hardware then Err(Db)
    else if s.hardware[row.hardwareKey.value].public != sk.public then Err(IntegrityCheckFailed)
    else match Unseal(sk, row.wrapped.value)
      case Some(share) => Ok(share)
      case None => Err(IntegrityCheckFailed)
  }

  /** `rebind_leaf` */
  function RebindLeaf(s: Store, name: string, newKey: int, sk: SecretKey): Result<Store> {
    if Load(s).Err? then Err(Load(s).error)
    else match IndexOfName(s.rows, name)
      case None => Err(NodeNotFound)
      case Some(i) =>
        IndexOfNameFinds(s.rows, name);
        if !s.rows[i].active || s.rows[i].hardwareKey.None? then Err(NodeNotFound)
        else match UnwrapLeaf(s, i, sk)
          case Err(e) => Err(e)
          case Ok(share) =>
            match ActiveKey(s, newKey)
            case Err(e) => Err(e)
            case Ok(public) => Ok(s.(rows := s.rows[i :=
                s.rows[i].(hardwareKey := Some(newKey), wrapped := Some(Sealed(public, share)))]))
  }

  /** The active ones among cs, `skip` aside, provided all of them are leaves. */
  function ActiveLeaves(rows: seq<Row>, cs: seq<nat>, skip: Option<nat>): (r: Option<seq<nat>>)
    requires In(rows, cs)
    ensures r.Some? ==> AllLeaves(rows, r.value)
  {
    if cs == [] then Some([])
    else
      var c := cs[|cs| - 1];
      match ActiveLeaves(rows, cs[..|cs| - 1], skip)
      case None => None
      case Some(ls) =>
        if skip == Some(c) || !rows[c].active then Some(ls)
        else if rows[c].hardwareKey.None? then None
        else Some(ls + [c])
  }

  lemma {:induction false} ActiveLeavesAre(rows: seq<Row>, cs: seq<nat>, skip: Option<nat>)
    requires In(rows, cs) && NoRepeats(cs)
    ensures match ActiveLeaves(rows, cs, skip)
      case None => exists c :: c in cs && skip != Some(c) && rows[c].active && rows[c].hardwareKey.None?
      case Some(ls) => NoRepeats(ls) && forall c :: c in ls <==>
        c in cs && skip != Some(c) && rows[c].active && rows[c].hardwareKey.Some?
    ensures ActiveLeaves(rows, cs, skip).Some? ==>
      forall c :: c in cs && skip != Some(c) && rows[c].active ==> c in ActiveLeaves(rows, cs, skip).value
  {
    if cs != [] {
      ActiveLeavesAre(rows, cs[..|cs| - 1], skip);
      assert cs == cs[..|cs| - 1] + [cs[|cs| - 1]];
    }
  }

  /** The entries presented for these leaves, in order. */
  function Given(rows: seq<Row>, leaves: seq<nat>, presented: RawShares): seq<Bytes>
    requires In(rows, leaves)
  {
    if leaves == [] then []
    else
      var c, rest := leaves[|leaves| - 1], Given(rows, leaves[..|leaves| - 1], presented);
      if rows[c].id in presented then rest + [presented[rows[c].id]] else rest
  }

  /** The public keys of these leaves, all of them active encryption keys. */
  function LeafKeys(s: Store, leaves: seq<nat>): (r: Result<seq<PublicKey>>)
    requires AllLeaves(s.rows, leaves)
    ensures r.Ok? ==> |r.value| == |leaves|
  {
    if leaves == [] then Ok([])
    else match LeafKeys(s, leaves[..|leaves| - 1])
      case Err(e) => Err(e)
      case Ok(keys) =>
        match ActiveKey(s, s.rows[leaves[|leaves| - 1]].hardwareKey.value)
        case Err(e) => Err(e)
        case Ok(public) => Ok(keys + [public])
  }

  function Reseal(rows: seq<Row>, leaves: seq<nat>, keys: seq<PublicKey>, shares: seq<Bytes>): (r: seq<Row>)
    requires |leaves| == |keys| == |shares| && In(rows, leaves)
    ensures |r| == |rows|
  {
    if leaves == [] then rows
    else
      var n := |leaves| - 1;
      var r := Reseal(rows, leaves[..n], keys[..n], shares[..n]);
      r[leaves[n] := r[leaves[n]].(wrapped := Some(Sealed(keys[n], shares[n])))]
  }

  /** Resealing touches only the wrapped shares of the listed leaves. */
  lemma {:induction false} ResealAt(rows: seq<Row>, leaves: seq<nat>, keys: seq<PublicKey>, shares: seq<Bytes>)
    requires |leaves| == |keys| == |shares| && In(rows, leaves) && NoRepeats(leaves)
    ensures var r := Reseal(rows, leaves, keys, shares);
      && (forall k :: 0 <= k < |leaves| ==>
           r[leaves[k]] == rows[leaves[k]].(wrapped := Some(Sealed(keys[k], shares[k]))))
      && (forall c :: 0 <= c < |rows| && c !in leaves ==> r[c] == rows[c])
  {
    if leaves != [] {
      var n := |leaves| - 1;
      ResealAt(rows, leaves[..n], keys[..n], shares[..n]);
      var r := Reseal(rows, leaves[..n], keys[..n], shares[..n]);
      forall k | 0 <= k < n ensures leaves[k] != leaves[n] && leaves[..n][k] == leaves[k] {
      }
      assert leaves[n] !in leaves[..n];
      assert leaves == leaves[..n] + [leaves[n]];
    }
  }

  /** Fresh shares of a secret at the points 1..n. */
  function FreshShares(g: Gf, polys: seq<Poly>, n: nat): seq<Bytes>
    requires n <= 255
  {
    seq<Bytes>(n, k requires 0 <= k < n => ShareAt(g, polys, Point(k)))
  }

  /** `require_recoverable_share_coordinates` and `recover_secret` */
  function RecoverSecret(g: Gf, t: nat, raws: seq<Bytes>): Result<Bytes> {
    if exists k :: 0 <= k < |raws| && |raws[k]| == 0 then Err(ShareShapeMismatch)
    else if !PointsUsable(Xs(raws)) then Err(ShareShapeMismatch)
    else if !AllParse(raws) then Err(QuorumNotMet)
    else Recover(g, t, raws)
  }

  predicate PointsUsable(xs: seq<Byte>) {
    (forall i, j :: 0 <= i < j < |xs| ==> xs[i] != xs[j]) && 0 !in xs
  }

  /** `add_leaf_and_reshare`: recover the parent's value from the presented shares of its
  active leaves, deal it anew to them and to one leaf more. */
  function AddLeaf(g: Gf, s: Store, parentName: string, newName: string, newKey: int, presented: RawShares, tape: Tape)
    : Result<Store>
  {
    if newName == "" then Err(DuplicateNodeLabel)
    else if Load(s).Err? then Err(Load(s).error)
    else if IndexOfName(s.rows, newName).Some? then Err(DuplicateNodeLabel)
    else match IndexOfName(s.rows, parentName)
      case None => Err(NodeNotFound)
      case Some(p) =>
        IndexOfNameFinds(s.rows, parentName);
        if s.rows[p].threshold.None? then Err(CannotAddLeaf)
        else match ActiveLeaves(s.rows, Children(s.rows, p), None)
          case None => Err(CannotAddLeaf)
          case Some(leaves) =>
            ActiveLeavesAre(s.rows, Children(s.rows, p), None);
            var t, n := s.rows[p].threshold.value, |leaves| + 1;
            if n > 255 || t > n || t == 0 then Err(CannotAddLeaf)
            else
              var raws := Given(s.rows, leaves, presented);
              if |raws| < t then Err(QuorumNotMet)
              else match RecoverSecret(g, t, raws)
                case Err(e) => Err(e)
                case Ok(secret) => DealOneMore(s, p, leaves, newName, newKey, FreshShares(g, Dealer(secret, t, tape), n))
  }

  /** Fresh shares sealed to the active leaves, the last one to a new leaf. */
  function DealOneMore(s: Store, p: nat, leaves: seq<nat>, newName: string, newKey: int, shares: seq<Bytes>): Result<Store>
    requires p < |s.rows| && AllLeaves(s.rows, leaves) && |shares| == |leaves| + 1
  {
    match ActiveKey(s, newKey)
    case Err(e) => Err(e)
    case Ok(public) =>
      match LeafKeys(s, leaves)
      case Err(e) => Err(e)
      case Ok(keys) =>
        var row := Row(s.nextId, Some(s.rows[p].id), newName, None, Some(newKey),
                       Some(Sealed(public, shares[|leaves|])), true);
        Ok(s.(rows := Reseal(s.rows, leaves, keys, shares[..|leaves|]) + [row], nextId := s.nextId + 1))
  }

  /** The survivors' current shares and keys, or the first thing missing. */
  function Survivors(s: Store, leaves: seq<nat>, presented: RawShares): (r: Result<(seq<Bytes>, seq<PublicKey>)>)
    requires AllLeaves(s.rows, leaves)
    ensures r.Ok? ==> |r.value.0| == |r.value.1| == |leaves|
    ensures r.Ok? ==> forall k :: 0 <= k < |leaves| ==>
      s.rows[leaves[k]].id in presented && r.value.0[k] == presented[s.rows[leaves[k]].id]
  {
    if leaves == [] then Ok(([], []))
    else
      var c := leaves[|leaves| - 1];
      match Survivors(s, leaves[..|leaves| - 1], presented)
      case Err(e) => Err(e)
      case Ok((raws, keys)) =>
        if s.rows[c].id !in presented then Err(QuorumNotMet)
        else match ActiveKey(s, s.rows[c].hardwareKey.value)
          case Err(e) => Err(e)
          case Ok(public) => Ok((raws + [presented[s.rows[c].id]], keys + [public]))
  }

  /** `delete_node_bindings`: drop the pairings and whitelist rows that mention the node. */
  function WithoutBindings(s: Store, i: nat): Store
    requires i < |s.rows|
  {
    var row := s.rows[i];
    s.(links := (set l | l in s.links && l.0 != row.id && l.1 != row.id),
       whitelist := (set e | e in s.whitelist && e.0 != row.id
                       && !(e.1 == row.name && exists j :: 0 <= j < |s.rows| && s.rows[j].id == e.0)))
  }

  function AbsorbAll(g: Gf, raws: seq<Bytes>, z: seq<Poly>): seq<Bytes>
    requires forall k :: 0 <= k < |raws| ==> |raws[k]| == |z| + 1
  {
    seq<Bytes>(|raws|, k requires 0 <= k < |raws| => Absorbed(g, raws[k], z))
  }

  /** What each survivor draws in one refresh. */
  type Tapes = nat -> Tape

  function Draws(tapes: Tapes, n: nat): (draws: seq<Tape>)
    ensures |draws| == n
  {
    seq<Tape>(n, k requires 0 <= k => tapes(k))
  }

  /** The sum of the survivors' blinding polynomials. */
  function RefreshSum(g: Gf, tapes: Tapes, t: nat, raws: seq<Bytes>): (z: seq<Poly>)
    requires 0 < t && |raws| > 0 && |raws[0]| > 0
    ensures |z| == |raws[0]| - 1
  {
    BlindingSum(g, Draws(tapes, |raws|), t, |raws[0]| - 1, |raws|)
  }

  predicate CanRefresh(raws: seq<Bytes>, t: nat) {
    2 <= t <= |raws| && |raws[0]| >= 2 && AllAsLong(raws, |raws[0]|) && PointsUsable(Xs(raws))
  }

  /** `evict_and_refresh`: switch the leaf off and refresh its remaining siblings. */
  function Evict(g: Gf, s: Store, evictedId: int, presented: RawShares, tapes: Tapes): Result<Store> {
    if Load(s).Err? then Err(Load(s).error)
    else match IndexOfId(s.rows, evictedId)
      case None => Err(NodeNotFound)
      case Some(e) =>
        IndexOfIdFinds(s.rows, evictedId);
        var row := s.rows[e];
        if !row.active || row.hardwareKey.None? || row.parent.None? then Err(CannotEvict)
        else
          IndexOfIdFinds(s.rows, row.parent.value);
          EvictBelow(g, s, e, IndexOfId(s.rows, row.parent.value).value, presented, tapes)
  }

  /** Evict leaf e, a child of p. */
  function EvictBelow(g: Gf, s: Store, e: nat, p: nat, presented: RawShares, tapes: Tapes): Result<Store>
    requires e < |s.rows| && p < |s.rows|
  {
    // below a threshold of two the blinding polynomials are zero and nothing is refreshed
    if s.rows[p].threshold.None? || s.rows[p].threshold.value < 2 then Err(CannotEvict)
    else match ActiveLeaves(s.rows, Children(s.rows, p), Some(e))
      case None => Err(CannotEvict)
      case Some(leaves) =>
        ActiveLeavesAre(s.rows, Children(s.rows, p), Some(e));
        if |leaves| < s.rows[p].threshold.value then Err(CannotEvict)
        else match Survivors(s, leaves, presented)
          case Err(err) => Err(err)
          case Ok((raws, keys)) => Refresh(g, s, e, s.rows[p].threshold.value, leaves, raws, keys, tapes)
  }

  /** Refresh the survivors' shares at threshold t and switch leaf e off. */
  function Refresh(g: Gf, s: Store, e: nat, t: nat, leaves: seq<nat>, raws: seq<Bytes>, keys: seq<PublicKey>,
                   tapes: Tapes): Result<Store>
    requires e < |s.rows| && |raws| == |keys| == |leaves| && In(s.rows, leaves)
  {
    if !CanRefresh(raws, t) then Err(ShareShapeMismatch)
    else
      var z := RefreshSum(g, tapes, t, raws);
      var off := s.rows[e := s.rows[e].(active := false)];
      Ok(WithoutBindings(s, e).(rows := Reseal(off, leaves, keys, AbsorbAll(g, raws, z))))
  }
}
