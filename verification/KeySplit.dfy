/** Splitting a secret down a tree of node specifications (`validate`, `split`), the
soundness of the rows it writes, and exporting them again (`export_spec`). */
module KeySplit {
  import opened Errors
  import opened Field
  import opened Polynomials
  import opened Shamir
  import opened KeyTree
  import opened KeyStore
  import opened KeyRuns
  import Strings

  datatype NodeSpec =
    | Leaf(name: string, hardwareKey: int, bridges: seq<string>)
    | Split(name: string, threshold: Byte, children: seq<NodeSpec>, bridges: seq<string>)

  function Size(spec: NodeSpec): (n: nat)
    ensures n > 0
    decreases spec, 1
  {
    if spec.Leaf? then 1 else 1 + SizeAll(spec.children)
  }

  function SizeAll(cs: seq<NodeSpec>): nat
    decreases cs, 0
  {
    if cs == [] then 0 else Size(cs[0]) + SizeAll(cs[1..])
  }

  function Names(spec: NodeSpec): (ns: seq<string>)
    ensures |ns| == Size(spec) && ns[0] == spec.name
    decreases spec, 1
  {
    if spec.Leaf? then [spec.name] else [spec.name] + NamesAll(spec.children)
  }

  function NamesAll(cs: seq<NodeSpec>): (ns: seq<string>)
    ensures |ns| == SizeAll(cs)
    decreases cs, 0
  {
    if cs == [] then [] else Names(cs[0]) + NamesAll(cs[1..])
  }

  // ----- validation

  predicate KeysUsable(s: Store, spec: NodeSpec)
    decreases spec
  {
    match spec
    case Leaf(_, key, _) => ActiveKey(s, key).Ok?
    case Split(_, t, cs, _) =>
      0 < t && t as nat <= |cs| <= 255 && forall k :: 0 <= k < |cs| ==> KeysUsable(s, cs[k])
  }

  predicate BridgesNamed(spec: NodeSpec, names: seq<string>)
    decreases spec
  {
    && (forall k :: 0 <= k < |spec.bridges| ==> spec.bridges[k] != spec.name && spec.bridges[k] in names)
    && (spec.Split? ==> forall k :: 0 <= k < |spec.children| ==> BridgesNamed(spec.children[k], names))
  }

  // ----- the rows and values a split writes, parents before children

  datatype Dealing = Dealing(g: Gf, hardware: map<int, HardwareKey>, tapes: int -> Tape)

  predicate Dealable(d: Dealing, spec: NodeSpec)
    decreases spec
  {
    match spec
    case Leaf(_, key, _) => key in d.hardware
    case Split(_, t, cs, _) =>
      0 < t && t as nat <= |cs| <= 255 && forall k :: 0 <= k < |cs| ==> Dealable(d, cs[k])
  }

  predicate DealableAll(d: Dealing, cs: seq<NodeSpec>, k: nat) {
    k + |cs| <= 255 && forall j :: 0 <= j < |cs| ==> Dealable(d, cs[j])
  }

  function Rows(d: Dealing, spec: NodeSpec, parent: Option<int>, value: Bytes, id: int): (rows: seq<Row>)
    requires Dealable(d, spec)
    ensures |rows| == Size(spec)
    decreases spec, 1
  {
    match spec
    case Leaf(name, key, _) =>
      [Row(id, parent, name, None, Some(key), Some(Sealed(d.hardware[key].public, value)), true)]
    case Split(name, t, cs, _) =>
      [Row(id, parent, name, Some(t as nat), None, None, true)]
      + RowsAll(d, cs, 0, id, Dealer(value, t as nat, d.tapes(id)), id + 1)
  }

  function RowsAll(d: Dealing, cs: seq<NodeSpec>, k: nat, parent: int, polys: seq<Poly>, id: int): (rows: seq<Row>)
    requires DealableAll(d, cs, k)
    ensures |rows| == SizeAll(cs)
    decreases cs, 0
  {
    if cs == [] then []
    else Rows(d, cs[0], Some(parent), ShareAt(d.g, polys, Point(k)), id)
         + RowsAll(d, cs[1..], k + 1, parent, polys, id + Size(cs[0]))
  }

  /** The value handed to each node, in the same order. */
  function Dealt(d: Dealing, spec: NodeSpec, value: Bytes, id: int): (vs: seq<Bytes>)
    requires Dealable(d, spec)
    ensures |vs| == Size(spec) && vs[0] == value
    decreases spec, 1
  {
    match spec
    case Leaf(_, _, _) => [value]
    case Split(_, t, cs, _) => [value] + DealtAll(d, cs, 0, Dealer(value, t as nat, d.tapes(id)), id + 1)
  }

  function DealtAll(d: Dealing, cs: seq<NodeSpec>, k: nat, polys: seq<Poly>, id: int): (vs: seq<Bytes>)
    requires DealableAll(d, cs, k)
    ensures |vs| == SizeAll(cs)
    decreases cs, 0
  {
    if cs == [] then []
    else Dealt(d, cs[0], ShareAt(d.g, polys, Point(k)), id)
         + DealtAll(d, cs[1..], k + 1, polys, id + Size(cs[0]))
  }

  /** Where the blocks of the children start. */
  function Offsets(cs: seq<NodeSpec>, o: nat): (os: seq<nat>)
    ensures |os| == |cs|
  {
    if cs == [] then [] else [o] + Offsets(cs[1..], o + Size(cs[0]))
  }

  // ----- facts about every row of a block

  /** Row i of a block whose ids start at id: a leaf holds its value sealed to its key, a
  split holds only a threshold. */
  ghost predicate RowOf(d: Dealing, row: Row, value: Bytes, id: int) {
    && row.id == id && row.active
    && (row.threshold.Some? ==> row.hardwareKey.None? && row.wrapped.None?)
    && (row.threshold.None? ==>
          row.hardwareKey.Some? && row.hardwareKey.value in d.hardware
          && row.wrapped == Some(Sealed(d.hardware[row.hardwareKey.value].public, value)))
  }

  lemma {:induction false} RowsAre(d: Dealing, spec: NodeSpec, parent: Option<int>, value: Bytes, id: int)
    requires Dealable(d, spec)
    ensures forall i :: 0 <= i < Size(spec) ==>
      RowOf(d, Rows(d, spec, parent, value, id)[i], Dealt(d, spec, value, id)[i], id + i)
    ensures forall i :: 0 <= i < Size(spec) ==> Rows(d, spec, parent, value, id)[i].name == Names(spec)[i]
    decreases spec, 1
  {
    if spec.Split? {
      RowsAllAre(d, spec.children, 0, id, Dealer(value, spec.threshold as nat, d.tapes(id)), id + 1);
    }
  }

  lemma {:induction false} RowsAllAre(d: Dealing, cs: seq<NodeSpec>, k: nat, parent: int, polys: seq<Poly>, id: int)
    requires DealableAll(d, cs, k)
    ensures forall i :: 0 <= i < SizeAll(cs) ==>
      RowOf(d, RowsAll(d, cs, k, parent, polys, id)[i], DealtAll(d, cs, k, polys, id)[i], id + i)
    ensures forall i :: 0 <= i < SizeAll(cs) ==> RowsAll(d, cs, k, parent, polys, id)[i].name == NamesAll(cs)[i]
    decreases cs, 0
  {
    if cs != [] {
      RowsAre(d, cs[0], Some(parent), ShareAt(d.g, polys, Point(k)), id);
      RowsAllAre(d, cs[1..], k + 1, parent, polys, id + Size(cs[0]));
    }
  }

  /** Every row after the first has its parent, a split, before it in the block. */
  lemma {:induction false} RowsParents(d: Dealing, spec: NodeSpec, parent: Option<int>, value: Bytes, id: int)
    requires Dealable(d, spec)
    ensures Rows(d, spec, parent, value, id)[0].parent == parent
    ensures forall i :: 0 < i < Size(spec) ==> HasParent(Rows(d, spec, parent, value, id), i)
    decreases spec, 1
  {
    if spec.Split? {
      var polys := Dealer(value, spec.threshold as nat, d.tapes(id));
      var rest, rows := RowsAll(d, spec.children, 0, id, polys, id + 1), Rows(d, spec, parent, value, id);
      RowsAllParents(d, spec.children, 0, id, polys, id + 1);
      forall i | 0 < i < Size(spec) ensures HasParent(rows, i) {
        if rest[i - 1].parent == Some(id) {
          assert rows[0].threshold.Some? && rows[i].parent == Some(rows[0].id);
        } else {
          ParentRight([rows[0]], rest, i - 1);
        }
      }
    }
  }

  lemma ParentLeft(a: seq<Row>, b: seq<Row>, i: nat)
    requires i < |a| && HasParent(a, i)
    ensures HasParent(a + b, i)
  {
    var p :| 0 <= p < i && a[p].threshold.Some? && a[i].parent == Some(a[p].id);
    assert (a + b)[p].threshold.Some? && (a + b)[i].parent == Some((a + b)[p].id);
  }

  lemma ParentRight(a: seq<Row>, b: seq<Row>, i: nat)
    requires i < |b| && HasParent(b, i)
    ensures HasParent(a + b, |a| + i)
  {
    var p :| 0 <= p < i && b[p].threshold.Some? && b[i].parent == Some(b[p].id);
    var q := |a| + p;
    assert (a + b)[q].threshold.Some? && (a + b)[|a| + i].parent == Some((a + b)[q].id);
  }

  /** Each row has the given parent or one before it. */
  ghost predicate Under(rows: seq<Row>, parent: int) {
    forall i :: 0 <= i < |rows| ==> rows[i].parent == Some(parent) || HasParent(rows, i)
  }

  lemma UnderConcat(a: seq<Row>, b: seq<Row>, parent: int)
    requires Under(a, parent) && Under(b, parent)
    ensures Under(a + b, parent)
  {
    forall i | 0 <= i < |a + b| ensures (a + b)[i].parent == Some(parent) || HasParent(a + b, i) {
      if i < |a| {
        if a[i].parent != Some(parent) {
          ParentLeft(a, b, i);
        }
      } else if b[i - |a|].parent != Some(parent) {
        ParentRight(a, b, i - |a|);
      }
    }
  }

  /** In the children's blocks, a row has the given parent or one inside its own block. */
  lemma {:induction false} RowsAllParents(d: Dealing, cs: seq<NodeSpec>, k: nat, parent: int, polys: seq<Poly>, id: int)
    requires DealableAll(d, cs, k)
    ensures Under(RowsAll(d, cs, k, parent, polys, id), parent)
    decreases cs, 0
  {
    if cs != [] {
      var value := ShareAt(d.g, polys, Point(k));
      RowsParents(d, cs[0], Some(parent), value, id);
      RowsAllParents(d, cs[1..], k + 1, parent, polys, id + Size(cs[0]));
      UnderConcat(Rows(d, cs[0], Some(parent), value, id),
                  RowsAll(d, cs[1..], k + 1, parent, polys, id + Size(cs[0])), parent);
    }
  }

  /** The rows with the given parent are those at the given indices. */
  ghost predicate ChildrenAt(rows: seq<Row>, parent: int, os: seq<nat>) {
    forall i :: 0 <= i < |rows| ==> (rows[i].parent == Some(parent) <==> i in os)
  }

  lemma {:induction false} FirstBlockFirst(d: Dealing, cs: seq<NodeSpec>, k: nat, parent: int, polys: seq<Poly>, id: int)
    requires DealableAll(d, cs, k) && cs != []
    requires ChildrenAt(Rows(d, cs[0], Some(parent), ShareAt(d.g, polys, Point(k)), id), parent, [0])
    requires ChildrenAt(RowsAll(d, cs[1..], k + 1, parent, polys, id + Size(cs[0])), parent, Offsets(cs[1..], 0))
    ensures ChildrenAt(RowsAll(d, cs, k, parent, polys, id), parent, Offsets(cs, 0))
  {
    var first := Rows(d, cs[0], Some(parent), ShareAt(d.g, polys, Point(k)), id);
    ChildrenConcat(first, RowsAll(d, cs[1..], k + 1, parent, polys, id + Size(cs[0])), parent, cs);
    RowsAllSplit(d, cs, k, parent, polys, id);
  }

  /** In the children's blocks, exactly the first rows have the given parent. */
  lemma {:induction false} FirstRows(d: Dealing, cs: seq<NodeSpec>, k: nat, parent: int, polys: seq<Poly>, id: int)
    requires DealableAll(d, cs, k) && parent < id
    ensures ChildrenAt(RowsAll(d, cs, k, parent, polys, id), parent, Offsets(cs, 0))
    decreases cs, 0
  {
    if cs != [] {
      var n := Size(cs[0]);
      var value := ShareAt(d.g, polys, Point(k));
      FirstRows(d, cs[1..], k + 1, parent, polys, id + n);
      FirstRow(d, cs[0], parent, value, id);
      FirstBlockFirst(d, cs, k, parent, polys, id);
    }
  }

  lemma RowsAllSplit(d: Dealing, cs: seq<NodeSpec>, k: nat, parent: int, polys: seq<Poly>, id: int)
    requires DealableAll(d, cs, k) && cs != []
    ensures RowsAll(d, cs, k, parent, polys, id) == Rows(d, cs[0], Some(parent), ShareAt(d.g, polys, Point(k)), id)
      + RowsAll(d, cs[1..], k + 1, parent, polys, id + Size(cs[0]))
  {
  }

  lemma {:induction false} FirstRow(d: Dealing, spec: NodeSpec, parent: int, value: Bytes, id: int)
    requires Dealable(d, spec) && parent < id
    ensures ChildrenAt(Rows(d, spec, Some(parent), value, id), parent, [0])
  {
    var rows := Rows(d, spec, Some(parent), value, id);
    RowsParents(d, spec, Some(parent), value, id);
    RowsAre(d, spec, Some(parent), value, id);
    forall i | 0 < i < |rows| ensures rows[i].parent != Some(parent) {
      assert HasParent(rows, i);
      var p :| 0 <= p < i && rows[p].threshold.Some? && rows[i].parent == Some(rows[p].id);
      assert RowOf(d, rows[p], Dealt(d, spec, value, id)[p], id + p);
    }
  }

  lemma {:induction false} ChildrenConcat(a: seq<Row>, b: seq<Row>, parent: int, cs: seq<NodeSpec>)
    requires cs != [] && |a| == Size(cs[0]) && ChildrenAt(a, parent, [0]) && ChildrenAt(b, parent, Offsets(cs[1..], 0))
    ensures ChildrenAt(a + b, parent, Offsets(cs, 0))
  {
    OffsetsFrom(cs[1..], |a|);
    forall i | 0 <= i < |a + b| ensures (a + b)[i].parent == Some(parent) <==> i in Offsets(cs, 0) {
      if i >= |a| {
        OffsetsShift(cs[1..], 0, |a|, i - |a|);
      }
    }
  }

  lemma {:induction false} OffsetsShift(cs: seq<NodeSpec>, o: nat, n: nat, i: nat)
    ensures i in Offsets(cs, o) <==> i + n in Offsets(cs, o + n)
  {
    if cs != [] {
      OffsetsShift(cs[1..], o + Size(cs[0]), n, i);
    }
  }

  lemma {:induction false} OffsetsFrom(cs: seq<NodeSpec>, o: nat)
    ensures forall i :: i in Offsets(cs, o) ==> o <= i < o + SizeAll(cs)
    ensures forall j, k :: 0 <= j < k < |cs| ==> Offsets(cs, o)[j] < Offsets(cs, o)[k]
  {
    if cs != [] {
      var rest := Offsets(cs[1..], o + Size(cs[0]));
      OffsetsFrom(cs[1..], o + Size(cs[0]));
      forall k | 0 <= k < |rest| ensures o < rest[k] {
        assert rest[k] in rest;
      }
    }
  }

  // ----- a block inside the rows of a whole tree

  ghost predicate SameAt<T>(s: seq<T>, o: nat, part: seq<T>, i: nat)
    requires o + |part| <= |s| && i < |part|
  {
    s[o + i] == part[i]
  }

  ghost predicate At<T>(s: seq<T>, o: nat, part: seq<T>) {
    o + |part| <= |s| && forall i: nat :: i < |part| ==> SameAt(s, o, part, i)
  }

  lemma AtConcat<T>(s: seq<T>, o: nat, a: seq<T>, b: seq<T>)
    requires At(s, o, a + b)
    ensures At(s, o, a) && At(s, o + |a|, b)
  {
    forall i: nat | i < |a| ensures SameAt(s, o, a, i) {
      assert SameAt(s, o, a + b, i);
    }
    var next := o + |a|;
    forall i: nat | i < |b| ensures SameAt(s, next, b, i) {
      assert SameAt(s, o, a + b, |a| + i);
    }
  }

  lemma AtIndex<T>(s: seq<T>, o: nat, part: seq<T>, i: nat)
    requires At(s, o, part) && i < |part|
    ensures o + i < |s| && s[o + i] == part[i]
  {
    assert SameAt(s, o, part, i);
  }

  ghost predicate Numbered(rows: seq<Row>, base: int) {
    forall i :: 0 <= i < |rows| ==> rows[i].id == base + i
  }

  lemma {:induction false} SplitRows(d: Dealing, rows: seq<Row>, spec: NodeSpec, parent: Option<int>, value: Bytes,
                                     id: int, o: nat)
    requires Dealable(d, spec) && spec.Split? && At(rows, o, Rows(d, spec, parent, value, id))
    ensures o < |rows| && rows[o] == Row(id, parent, spec.name, Some(spec.threshold as nat), None, None, true)
    ensures At(rows, o + 1, RowsAll(d, spec.children, 0, id, Dealer(value, spec.threshold as nat, d.tapes(id)), id + 1))
  {
    var header := Row(id, parent, spec.name, Some(spec.threshold as nat), None, None, true);
    AtConcat(rows, o, [header], RowsAll(d, spec.children, 0, id, Dealer(value, spec.threshold as nat, d.tapes(id)), id + 1));
    AtIndex(rows, o, [header], 0);
  }

  lemma FirstRowsAt(d: Dealing, rows: seq<Row>, cs: seq<NodeSpec>, k: nat, parent: int, polys: seq<Poly>, id: int, o: nat)
    requires DealableAll(d, cs, k) && cs != [] && At(rows, o, RowsAll(d, cs, k, parent, polys, id))
    ensures At(rows, o, Rows(d, cs[0], Some(parent), ShareAt(d.g, polys, Point(k)), id))
    ensures At(rows, o + Size(cs[0]), RowsAll(d, cs[1..], k + 1, parent, polys, id + Size(cs[0])))
  {
    AtConcat(rows, o, Rows(d, cs[0], Some(parent), ShareAt(d.g, polys, Point(k)), id),
             RowsAll(d, cs[1..], k + 1, parent, polys, id + Size(cs[0])));
  }

  /** No row outside lo..hi has its parent inside. */
  ghost predicate Isolated(rows: seq<Row>, base: int, lo: nat, hi: nat) {
    forall i :: 0 <= i < |rows| && !(lo <= i < hi) ==> Outside(rows[i], base + lo, base + hi)
  }

  predicate Outside(row: Row, lo: int, hi: int) {
    row.parent.None? || row.parent.value < lo || hi <= row.parent.value
  }

  predicate Inside(row: Row, lo: int, hi: int) {
    row.parent.Some? && lo <= row.parent.value < hi
  }

  /** A parent inside a part comes before the row. */
  lemma WithinPart(rows: seq<Row>, base: int, part: seq<Row>, o: nat, i: nat)
    requires Numbered(rows, base) && At(rows, o, part) && i < |part| && HasParent(part, i)
    ensures o + i < |rows| && Inside(rows[o + i], base + o, base + o + i)
  {
    var p :| 0 <= p < i && part[p].threshold.Some? && part[i].parent == Some(part[p].id);
    AtIndex(rows, o, part, i);
    AtIndex(rows, o, part, p);
  }

  /** The rows of a block, its first aside, have their parents inside the block. */
  lemma BlockParents(d: Dealing, rows: seq<Row>, base: int, spec: NodeSpec, parent: Option<int>, value: Bytes, o: nat, i: nat)
    requires Numbered(rows, base) && Dealable(d, spec) && At(rows, o, Rows(d, spec, parent, value, base + o))
    requires o <= i < o + Size(spec)
    ensures if i == o then rows[i].parent == parent else Inside(rows[i], base + o, base + i)
  {
    var part := Rows(d, spec, parent, value, base + o);
    RowsParents(d, spec, parent, value, base + o);
    AtIndex(rows, o, part, i - o);
    if i > o {
      assert HasParent(part, i - o);
      WithinPart(rows, base, part, o, i - o);
    }
  }

  lemma UnderParents(rows: seq<Row>, base: int, part: seq<Row>, parent: int, o: nat, i: nat)
    requires Numbered(rows, base) && At(rows, o, part) && Under(part, parent) && o <= i < o + |part|
    ensures rows[i].parent == Some(parent) || Inside(rows[i], base + o, base + i)
  {
    AtIndex(rows, o, part, i - o);
    if part[i - o].parent != Some(parent) {
      WithinPart(rows, base, part, o, i - o);
    }
  }

  /** Isolation passes from the children's blocks to the first of them and to the rest. */
  lemma IsolatedParts(rows: seq<Row>, base: int, o: nat, m: nat, hi: nat, parent: int)
    requires o <= m <= hi <= |rows| && parent < base + o && Isolated(rows, base, o, hi)
    requires UnderAt(rows, base, o, m, parent) && UnderAt(rows, base, m, hi, parent)
    ensures Isolated(rows, base, o, m) && Isolated(rows, base, m, hi)
  {
  }

  /** Rows lo..hi have the given parent or one of lo..hi before them. */
  ghost predicate UnderAt(rows: seq<Row>, base: int, lo: nat, hi: nat, parent: int)
    requires hi <= |rows|
  {
    forall i :: lo <= i < hi ==> rows[i].parent == Some(parent) || Inside(rows[i], base + lo, base + i)
  }

  lemma BlockUnder(d: Dealing, rows: seq<Row>, base: int, spec: NodeSpec, parent: int, value: Bytes, o: nat)
    requires Numbered(rows, base) && Dealable(d, spec) && At(rows, o, Rows(d, spec, Some(parent), value, base + o))
    ensures o + Size(spec) <= |rows| && UnderAt(rows, base, o, o + Size(spec), parent)
  {
    forall i | o <= i < o + Size(spec) ensures rows[i].parent == Some(parent) || Inside(rows[i], base + o, base + i) {
      BlockParents(d, rows, base, spec, Some(parent), value, o, i);
    }
  }

  lemma BlocksUnder(d: Dealing, rows: seq<Row>, base: int, cs: seq<NodeSpec>, k: nat, parent: int, polys: seq<Poly>, o: nat)
    requires Numbered(rows, base) && DealableAll(d, cs, k) && At(rows, o, RowsAll(d, cs, k, parent, polys, base + o))
    ensures o + SizeAll(cs) <= |rows| && UnderAt(rows, base, o, o + SizeAll(cs), parent)
  {
    RowsAllParents(d, cs, k, parent, polys, base + o);
    forall i | o <= i < o + SizeAll(cs) ensures rows[i].parent == Some(parent) || Inside(rows[i], base + o, base + i) {
      UnderParents(rows, base, RowsAll(d, cs, k, parent, polys, base + o), parent, o, i);
    }
  }

  lemma IsolatedFirst(d: Dealing, rows: seq<Row>, base: int, cs: seq<NodeSpec>, k: nat, parent: int, polys: seq<Poly>, o: nat)
    requires Numbered(rows, base) && DealableAll(d, cs, k) && cs != [] && parent < base + o
    requires At(rows, o, RowsAll(d, cs, k, parent, polys, base + o)) && Isolated(rows, base, o, o + SizeAll(cs))
    ensures Isolated(rows, base, o, o + Size(cs[0])) && Isolated(rows, base, o + Size(cs[0]), o + SizeAll(cs))
  {
    FirstRowsAt(d, rows, cs, k, parent, polys, base + o, o);
    BlockUnder(d, rows, base, cs[0], parent, ShareAt(d.g, polys, Point(k)), o);
    BlocksUnder(d, rows, base, cs[1..], k + 1, parent, polys, o + Size(cs[0]));
    IsolatedParts(rows, base, o, o + Size(cs[0]), o + SizeAll(cs), parent);
  }

  ghost predicate Increasing(s: seq<nat>) {
    forall j, k :: 0 <= j < k < |s| ==> s[j] < s[k]
  }

  lemma {:induction false} IncreasingUnique(s: seq<nat>, r: seq<nat>)
    requires Increasing(s) && Increasing(r) && |s| >= |r| && forall x :: x in s <==> x in r
    ensures s == r
  {
    if |r| > 0 {
      var m, n := |s| - 1, |r| - 1;
      assert s[m] in r && r[n] in s;
      assert s[m] == r[n];
      forall x ensures x in s[..m] <==> x in r[..n] {
        assert x in s <==> x in s[..m] || x == s[m];
        assert x in r <==> x in r[..n] || x == r[n];
      }
      IncreasingUnique(s[..m], r[..n]);
      assert s == s[..m] + [s[m]] && r == r[..n] + [r[n]];
    } else {
      HasElement(s);
    }
  }

  lemma HasElement(s: seq<nat>)
    ensures s == [] || exists x :: x in s
  {
    if s != [] {
      assert s[0] in s;
    }
  }

  lemma {:induction false} ChildrenIncrease(rows: seq<Row>, i: nat, j: nat)
    requires i < |rows| && j <= |rows|
    ensures Increasing(ChildrenBelow(rows, i, j))
  {
    if j > 0 {
      var all, rest := ChildrenBelow(rows, i, j), ChildrenBelow(rows, i, j - 1);
      ChildrenIncrease(rows, i, j - 1);
      if all != rest {
        assert all == rest + [j - 1];
        forall k | 0 <= k < |rest| ensures rest[k] < j - 1 {
          assert rest[k] in rest;
        }
      }
    }
  }

  lemma {:induction false} ChildInPart(rows: seq<Row>, base: int, o: nat, part: seq<Row>, cs: seq<NodeSpec>, c: nat)
    requires Numbered(rows, base) && o < |rows| && At(rows, o + 1, part) && |part| == SizeAll(cs)
    requires ChildrenAt(part, base + o, Offsets(cs, 0))
    requires forall i :: 0 <= i < |rows| && !(o + 1 <= i < o + 1 + |part|) ==> rows[i].parent != Some(base + o)
    ensures c in Children(rows, o) <==> c in Offsets(cs, o + 1)
  {
    assert c in Children(rows, o) <==> c < |rows| && rows[c].parent == Some(base + o);
    if o + 1 <= c < o + 1 + |part| {
      ParentInPart(rows, base + o, o + 1, part, cs, c);
    } else {
      OffsetsFrom(cs, o + 1);
    }
  }

  lemma {:induction false} ParentInPart(rows: seq<Row>, parent: int, o: nat, part: seq<Row>, cs: seq<NodeSpec>, c: nat)
    requires At(rows, o, part) && o <= c < o + |part| && ChildrenAt(part, parent, Offsets(cs, 0))
    ensures c < |rows| && (rows[c].parent == Some(parent) <==> c in Offsets(cs, o))
  {
    AtIndex(rows, o, part, c - o);
    OffsetsShift(cs, 0, o, c - o);
  }

  /** Rows whose children all sit in one part have exactly that part's as children. */
  lemma {:induction false} ChildrenInPart(rows: seq<Row>, base: int, o: nat, part: seq<Row>, cs: seq<NodeSpec>)
    requires Numbered(rows, base) && o < |rows| && At(rows, o + 1, part) && |part| == SizeAll(cs)
    requires ChildrenAt(part, base + o, Offsets(cs, 0))
    requires forall i :: 0 <= i < |rows| && !(o + 1 <= i < o + 1 + |part|) ==> rows[i].parent != Some(base + o)
    ensures Children(rows, o) == Offsets(cs, o + 1)
  {
    var ks, os := Children(rows, o), Offsets(cs, o + 1);
    OffsetsFrom(cs, o + 1);
    ChildrenIncrease(rows, o, |rows|);
    forall c: nat ensures c in ks <==> c in os {
      ChildInPart(rows, base, o, part, cs, c);
    }
    SameListing(ks, os);
  }

  lemma SameListing(s: seq<nat>, r: seq<nat>)
    requires Increasing(s) && Increasing(r) && forall x :: x in s <==> x in r
    ensures s == r
  {
    if |s| >= |r| {
      IncreasingUnique(s, r);
    } else {
      IncreasingUnique(r, s);
    }
  }

  /** The children of a placed split are the first rows of its children's blocks. */
  lemma BlockChildren(d: Dealing, rows: seq<Row>, base: int, spec: NodeSpec, parent: Option<int>, value: Bytes, o: nat)
    requires Numbered(rows, base) && Dealable(d, spec) && spec.Split? && (parent.None? || parent.value < base + o)
    requires At(rows, o, Rows(d, spec, parent, value, base + o)) && Isolated(rows, base, o, o + Size(spec))
    ensures o < |rows| && Children(rows, o) == Offsets(spec.children, o + 1)
  {
    SplitRows(d, rows, spec, parent, value, base + o, o);
    var polys := Dealer(value, spec.threshold as nat, d.tapes(base + o));
    FirstRows(d, spec.children, 0, base + o, polys, base + o + 1);
    ChildrenInPart(rows, base, o, RowsAll(d, spec.children, 0, base + o, polys, base + o + 1), spec.children);
  }

  // ----- every split of a placed block has a family

  ghost predicate AllActive(rows: seq<Row>) {
    forall i :: 0 <= i < |rows| ==> rows[i].active
  }

  /** The secrets map records the value dealt to every split. */
  ghost predicate Recorded(rows: seq<Row>, values: seq<Bytes>, secrets: Secrets) {
    |rows| == |values| && forall i :: 0 <= i < |rows| ==> Value(rows, secrets, i) == values[i]
  }

  lemma {:induction false} SplitValues(d: Dealing, values: seq<Bytes>, spec: NodeSpec, value: Bytes, id: int, o: nat)
    requires Dealable(d, spec) && spec.Split? && At(values, o, Dealt(d, spec, value, id))
    ensures o < |values| && values[o] == value
    ensures At(values, o + 1, DealtAll(d, spec.children, 0, Dealer(value, spec.threshold as nat, d.tapes(id)), id + 1))
  {
    AtConcat(values, o, [value], DealtAll(d, spec.children, 0, Dealer(value, spec.threshold as nat, d.tapes(id)), id + 1));
    AtIndex(values, o, [value], 0);
  }

  lemma FirstValuesAt(d: Dealing, values: seq<Bytes>, cs: seq<NodeSpec>, k: nat, polys: seq<Poly>, id: int, o: nat)
    requires DealableAll(d, cs, k) && cs != [] && At(values, o, DealtAll(d, cs, k, polys, id))
    ensures o < |values| && values[o] == ShareAt(d.g, polys, Point(k))
    ensures At(values, o, Dealt(d, cs[0], ShareAt(d.g, polys, Point(k)), id))
    ensures DealableAll(d, cs[1..], k + 1)
    ensures At(values, o + Size(cs[0]), DealtAll(d, cs[1..], k + 1, polys, id + Size(cs[0])))
  {
    var value := ShareAt(d.g, polys, Point(k));
    AtConcat(values, o, Dealt(d, cs[0], value, id), DealtAll(d, cs[1..], k + 1, polys, id + Size(cs[0])));
    AtIndex(values, o, Dealt(d, cs[0], value, id), 0);
  }

  /** The value at i is the share of polys for the k-th child. */
  ghost predicate HoldsShare(g: Gf, values: seq<Bytes>, i: nat, polys: seq<Poly>, k: nat) {
    k < 255 && i < |values| && values[i] == ShareAt(g, polys, Point(k))
  }

  ghost predicate HoldShares(g: Gf, values: seq<Bytes>, os: seq<nat>, polys: seq<Poly>) {
    forall j :: 0 <= j < |os| ==> HoldsShare(g, values, os[j], polys, j)
  }

  lemma {:induction false} FirstValueHolds(d: Dealing, values: seq<Bytes>, cs: seq<NodeSpec>, k: nat, polys: seq<Poly>,
                                           id: int, o: nat)
    requires DealableAll(d, cs, k) && cs != [] && At(values, o, DealtAll(d, cs, k, polys, id))
    ensures HoldsShare(d.g, values, o, polys, k)
  {
    FirstValuesAt(d, values, cs, k, polys, id, o);
  }

  lemma {:induction false} OffsetValue(d: Dealing, values: seq<Bytes>, cs: seq<NodeSpec>, k: nat, polys: seq<Poly>,
                                       id: int, o: nat, j: nat)
    requires DealableAll(d, cs, k) && At(values, o, DealtAll(d, cs, k, polys, id)) && j < |cs|
    ensures HoldsShare(d.g, values, Offsets(cs, o)[j], polys, k + j)
    decreases j
  {
    OffsetsFirst(cs, o, j);
    if j == 0 {
      FirstValueHolds(d, values, cs, k, polys, id, o);
    } else {
      FirstValuesAt(d, values, cs, k, polys, id, o);
      OffsetValue(d, values, cs[1..], k + 1, polys, id + Size(cs[0]), o + Size(cs[0]), j - 1);
      assert k + 1 + (j - 1) == k + j;
    }
  }

  lemma OffsetsFirst(cs: seq<NodeSpec>, o: nat, j: nat)
    requires j < |cs|
    ensures Offsets(cs, o)[j] == if j == 0 then o else Offsets(cs[1..], o + Size(cs[0]))[j - 1]
  {
  }

  lemma {:induction false} SplitShares(d: Dealing, values: seq<Bytes>, spec: NodeSpec, value: Bytes, id: int, o: nat)
    requires Dealable(d, spec) && spec.Split? && At(values, o, Dealt(d, spec, value, id))
    ensures o < |values| && values[o] == value
    ensures HoldShares(d.g, values, Offsets(spec.children, o + 1), Dealer(value, spec.threshold as nat, d.tapes(id)))
  {
    var polys, os := Dealer(value, spec.threshold as nat, d.tapes(id)), Offsets(spec.children, o + 1);
    SplitValues(d, values, spec, value, id, o);
    forall j | 0 <= j < |os| ensures HoldsShare(d.g, values, os[j], polys, j) {
      OffsetValue(d, values, spec.children, 0, polys, id + 1, o + 1, j);
    }
  }

  lemma SplitHeader(d: Dealing, rows: seq<Row>, base: int, spec: NodeSpec, parent: Option<int>, value: Bytes, o: nat)
    requires Numbered(rows, base) && Dealable(d, spec) && spec.Split? && (parent.None? || parent.value < base + o)
    requires At(rows, o, Rows(d, spec, parent, value, base + o)) && Isolated(rows, base, o, o + Size(spec))
    ensures o < |rows| && rows[o].threshold == Some(spec.threshold as nat)
    ensures Children(rows, o) == Offsets(spec.children, o + 1)
  {
    SplitRows(d, rows, spec, parent, value, base + o, o);
    BlockChildren(d, rows, base, spec, parent, value, o);
  }

  /** The header of a placed split and its children form a family. */
  lemma {:induction false} SplitFamily(d: Dealing, rows: seq<Row>, values: seq<Bytes>, secrets: Secrets, spec: NodeSpec,
                                       value: Bytes,
                    id: int, o: nat)
    requires Lawful(d.g) && Dealable(d, spec) && spec.Split? && value != []
    requires Recorded(rows, values, secrets) && AllActive(rows) && At(values, o, Dealt(d, spec, value, id))
    requires o < |rows| && rows[o].threshold == Some(spec.threshold as nat) && rows[o].id == id
    requires Children(rows, o) == Offsets(spec.children, o + 1)
    ensures HasFamily(d, rows, secrets, o)
  {
    SplitShares(d, values, spec, value, id, o);
    DealtFamily(d, rows, values, secrets, spec.threshold as nat, spec.children, value, id, o);
  }

  /** Active children holding the values dealt to them form a family. */
  lemma {:induction false} DealtFamily(d: Dealing, rows: seq<Row>, values: seq<Bytes>, secrets: Secrets, t: nat,
                                       cs: seq<NodeSpec>,
                    value: Bytes, id: int, o: nat)
    requires Lawful(d.g) && value != [] && 0 < t <= |cs| <= 255 && Recorded(rows, values, secrets)
    requires AllActive(rows)
    requires o < |rows| && rows[o].threshold == Some(t) && rows[o].id == id && values[o] == value
    requires Children(rows, o) == Offsets(cs, o + 1)
    requires HoldShares(d.g, values, Offsets(cs, o + 1), Dealer(value, t, d.tapes(id)))
    ensures HasFamily(d, rows, secrets, o)
  {
    var polys, os := Dealer(value, t, d.tapes(id)), Offsets(cs, o + 1);
    OffsetsFrom(cs, o + 1);
    assert forall c :: c in ActiveSet(rows, o) <==> c in os;
    NewFamily(d.g, rows, secrets, o, polys, os, PointsUpTo(|os|));
  }

  /** The children of split i hold shares of its value, dealt with the draw for its own row. */
  ghost predicate HasFamily(d: Dealing, rows: seq<Row>, secrets: Secrets, i: nat)
    requires i < |rows|
  {
    rows[i].threshold.Some? ==>
      && rows[i].threshold.value > 0
      && Family(d.g, rows, secrets, i, Dealer(Value(rows, secrets, i), rows[i].threshold.value, d.tapes(rows[i].id)))
  }

  ghost predicate FamiliesIn(d: Dealing, rows: seq<Row>, secrets: Secrets, lo: nat, hi: nat)
    requires hi <= |rows|
  {
    forall i :: lo <= i < hi ==> HasFamily(d, rows, secrets, i)
  }

  /** A block, or a run of sibling blocks, in its place among rows with recorded values. */
  ghost predicate Context(d: Dealing, rows: seq<Row>, values: seq<Bytes>, secrets: Secrets, base: int) {
    Lawful(d.g) && Numbered(rows, base) && Recorded(rows, values, secrets) && AllActive(rows)
  }

  ghost predicate Placed(d: Dealing, rows: seq<Row>, values: seq<Bytes>, base: int,
                         spec: NodeSpec, parent: Option<int>, value: Bytes, o: nat)
  {
    && Dealable(d, spec) && (parent.None? || parent.value < base + o)
    && At(rows, o, Rows(d, spec, parent, value, base + o)) && At(values, o, Dealt(d, spec, value, base + o))
    && Isolated(rows, base, o, o + Size(spec))
  }

  ghost predicate PlacedAll(d: Dealing, rows: seq<Row>, values: seq<Bytes>, base: int,
                            cs: seq<NodeSpec>, k: nat, parent: int, polys: seq<Poly>, o: nat)
  {
    && DealableAll(d, cs, k) && parent < base + o
    && At(rows, o, RowsAll(d, cs, k, parent, polys, base + o)) && At(values, o, DealtAll(d, cs, k, polys, base + o))
    && Isolated(rows, base, o, o + SizeAll(cs))
  }

  lemma PlacedChildren(d: Dealing, rows: seq<Row>, values: seq<Bytes>, base: int,
                       spec: NodeSpec, parent: Option<int>, value: Bytes, o: nat)
    requires Placed(d, rows, values, base, spec, parent, value, o) && spec.Split?
    ensures PlacedAll(d, rows, values, base, spec.children, 0, base + o,
                      Dealer(value, spec.threshold as nat, d.tapes(base + o)), o + 1)
  {
    SplitRows(d, rows, spec, parent, value, base + o, o);
    SplitValues(d, values, spec, value, base + o, o);
  }

  lemma PlacedFirst(d: Dealing, rows: seq<Row>, values: seq<Bytes>, base: int,
                    cs: seq<NodeSpec>, k: nat, parent: int, polys: seq<Poly>, o: nat)
    requires PlacedAll(d, rows, values, base, cs, k, parent, polys, o) && cs != [] && Numbered(rows, base)
    ensures Placed(d, rows, values, base, cs[0], Some(parent), ShareAt(d.g, polys, Point(k)), o)
    ensures PlacedAll(d, rows, values, base, cs[1..], k + 1, parent, polys, o + Size(cs[0]))
  {
    FirstRowsAt(d, rows, cs, k, parent, polys, base + o, o);
    FirstValuesAt(d, values, cs, k, polys, base + o, o);
    IsolatedFirst(d, rows, base, cs, k, parent, polys, o);
  }

  lemma {:induction false} BlockFamilies(d: Dealing, rows: seq<Row>, values: seq<Bytes>, secrets: Secrets, base: int,
                                         spec: NodeSpec, parent: Option<int>, value: Bytes, o: nat)
    requires Context(d, rows, values, secrets, base) && value != []
    requires Placed(d, rows, values, base, spec, parent, value, o)
    ensures o + Size(spec) <= |rows| && FamiliesIn(d, rows, secrets, o, o + Size(spec))
    decreases spec, 1
  {
    if spec.Leaf? {
      LeafFamilies(d, rows, values, secrets, base, spec, parent, value, o);
    } else {
      PlacedFamily(d, rows, values, secrets, base, spec, parent, value, o);
      PlacedChildren(d, rows, values, base, spec, parent, value, o);
      var polys := Dealer(value, spec.threshold as nat, d.tapes(base + o));
      BlocksFamilies(d, rows, values, secrets, base, spec.children, 0, base + o, polys, o + 1);
      FamilyThenBlocks(d, rows, secrets, spec, o);
    }
  }

  lemma PlacedFamily(d: Dealing, rows: seq<Row>, values: seq<Bytes>, secrets: Secrets, base: int,
                     spec: NodeSpec, parent: Option<int>, value: Bytes, o: nat)
    requires Context(d, rows, values, secrets, base) && value != [] && spec.Split?
    requires Placed(d, rows, values, base, spec, parent, value, o)
    ensures o < |rows| && HasFamily(d, rows, secrets, o)
  {
    SplitHeader(d, rows, base, spec, parent, value, o);
    SplitFamily(d, rows, values, secrets, spec, value, base + o, o);
  }

  lemma {:induction false} LeafFamilies(d: Dealing, rows: seq<Row>, values: seq<Bytes>, secrets: Secrets, base: int,
                     spec: NodeSpec, parent: Option<int>, value: Bytes, o: nat)
    requires Placed(d, rows, values, base, spec, parent, value, o) && spec.Leaf?
    ensures o + Size(spec) <= |rows| && FamiliesIn(d, rows, secrets, o, o + Size(spec))
  {
    AtIndex(rows, o, Rows(d, spec, parent, value, base + o), 0);
  }

  lemma {:induction false} FamilyThenBlocks(d: Dealing, rows: seq<Row>, secrets: Secrets, spec: NodeSpec, o: nat)
    requires spec.Split? && o + 1 + SizeAll(spec.children) <= |rows| && HasFamily(d, rows, secrets, o)
    requires FamiliesIn(d, rows, secrets, o + 1, o + 1 + SizeAll(spec.children))
    ensures o + Size(spec) <= |rows| && FamiliesIn(d, rows, secrets, o, o + Size(spec))
  {
  }

  lemma {:induction false} BlocksFamilies(d: Dealing, rows: seq<Row>, values: seq<Bytes>, secrets: Secrets, base: int,
                                          cs: seq<NodeSpec>, k: nat, parent: int, polys: seq<Poly>, o: nat)
    requires Context(d, rows, values, secrets, base)
    requires PlacedAll(d, rows, values, base, cs, k, parent, polys, o)
    ensures o + SizeAll(cs) <= |rows| && FamiliesIn(d, rows, secrets, o, o + SizeAll(cs))
    decreases cs, 0
  {
    if cs != [] {
      PlacedFirst(d, rows, values, base, cs, k, parent, polys, o);
      BlockFamilies(d, rows, values, secrets, base, cs[0], Some(parent), ShareAt(d.g, polys, Point(k)), o);
      BlocksFamilies(d, rows, values, secrets, base, cs[1..], k + 1, parent, polys, o + Size(cs[0]));
    }
  }

  // ----- splitting into an empty key

  function ValidateNode(s: Store, spec: NodeSpec): Result<()>
    decreases spec, 1
  {
    match spec
    case Leaf(_, key, _) => if ActiveKey(s, key).Err? then Err(ActiveKey(s, key).error) else Ok(())
    case Split(_, t, cs, _) =>
      if cs == [] || t == 0 || t as nat > |cs| || |cs| > 255 then Err(InvalidQuorumThreshold) else ValidateNodes(s, cs)
  }

  function ValidateNodes(s: Store, cs: seq<NodeSpec>): Result<()>
    decreases cs, 0
  {
    if cs == [] then Ok(())
    else if ValidateNode(s, cs[0]).Err? then ValidateNode(s, cs[0])
    else ValidateNodes(s, cs[1..])
  }

  /** `validate`: keys and thresholds, then names, then bridges. */
  function Validate(s: Store, spec: NodeSpec): Result<()> {
    if ValidateNode(s, spec).Err? then ValidateNode(s, spec)
    else if "" in Names(spec) || exists i, j :: 0 <= i < j < |Names(spec)| && Names(spec)[i] == Names(spec)[j]
      then Err(DuplicateNodeLabel)
    else if !BridgesNamed(spec, Names(spec)) then Err(InvalidBridge)
    else Ok(())
  }

  lemma {:induction false} ValidateNodeExact(s: Store, spec: NodeSpec)
    ensures ValidateNode(s, spec).Ok? <==> KeysUsable(s, spec)
    decreases spec, 1
  {
    if spec.Split? {
      ValidateNodesExact(s, spec.children);
    }
  }

  lemma {:induction false} ValidateNodesExact(s: Store, cs: seq<NodeSpec>)
    ensures ValidateNodes(s, cs).Ok? <==> forall k :: 0 <= k < |cs| ==> KeysUsable(s, cs[k])
    decreases cs, 0
  {
    if cs != [] {
      ValidateNodeExact(s, cs[0]);
      ValidateNodesExact(s, cs[1..]);
      assert forall k :: 0 <= k < |cs[1..]| ==> cs[1..][k] == cs[k + 1];
      assert forall k :: 0 < k < |cs| ==> cs[k] == cs[1..][k - 1];
    }
  }

  /** The bridge rows for nodes listed from id `base` on. */
  function WhitelistRows(bs: seq<seq<string>>, base: int): set<(int, string)> {
    set i, k | 0 <= i < |bs| && 0 <= k < |bs[i]| :: (base + i, bs[i][k])
  }

  /** The primary key refuses a repeated entry of one node. */
  predicate RepeatIn(bs: seq<seq<string>>) {
    exists i, j, k :: 0 <= i < |bs| && 0 <= j < k < |bs[i]| && bs[i][j] == bs[i][k]
  }

  function WhitelistOf(spec: NodeSpec, base: int): set<(int, string)> { WhitelistRows(Bridges(spec), base) }

  predicate BridgesRepeat(spec: NodeSpec) { RepeatIn(Bridges(spec)) }

  function Bridges(spec: NodeSpec): (bs: seq<seq<string>>)
    ensures |bs| == Size(spec) && bs[0] == spec.bridges
    decreases spec, 1
  {
    if spec.Leaf? then [spec.bridges] else [spec.bridges] + BridgesAll(spec.children)
  }

  function BridgesAll(cs: seq<NodeSpec>): (bs: seq<seq<string>>)
    ensures |bs| == SizeAll(cs)
    decreases cs, 0
  {
    if cs == [] then [] else Bridges(cs[0]) + BridgesAll(cs[1..])
  }

  lemma {:induction false} UsableIsDealable(d: Dealing, s: Store, spec: NodeSpec)
    requires KeysUsable(s, spec) && d.hardware == s.hardware
    ensures Dealable(d, spec)
    decreases spec
  {
    if spec.Split? {
      forall k | 0 <= k < |spec.children| ensures Dealable(d, spec.children[k]) {
        UsableIsDealable(d, s, spec.children[k]);
      }
    }
  }

  /** `split`: validate, then write the rows of a new key. */
  function SplitTree(g: Gf, s: Store, spec: NodeSpec, secret: Bytes, tapes: int -> Tape): Result<Store> {
    if Validate(s, spec).Err? then Err(Validate(s, spec).error)
    else if BridgesRepeat(spec) then Err(Db)
    else
      var d := Dealing(g, s.hardware, tapes);
      ValidateNodeExact(s, spec);
      UsableIsDealable(d, s, spec);
      Ok(s.(rows := Rows(d, spec, None, secret, s.nextId),
            whitelist := s.whitelist + WhitelistOf(spec, s.nextId),
            nextId := s.nextId + Size(spec)))
  }

  function SecretsOf(values: seq<Bytes>, base: int): Secrets {
    map id | base <= id < base + |values| :: Nth(values, base, id)
  }

  function Nth(values: seq<Bytes>, base: int, id: int): Bytes
    requires base <= id < base + |values|
  {
    values[id - base]
  }

  lemma {:induction false} RecordedSecrets(d: Dealing, spec: NodeSpec, secret: Bytes, id: int)
    requires Dealable(d, spec)
    ensures Recorded(Rows(d, spec, None, secret, id), Dealt(d, spec, secret, id), SecretsOf(Dealt(d, spec, secret, id), id))
  {
    var rows, values := Rows(d, spec, None, secret, id), Dealt(d, spec, secret, id);
    RowsAre(d, spec, None, secret, id);
    forall i | 0 <= i < |rows| ensures Value(rows, SecretsOf(values, id), i) == values[i] {
      assert RowOf(d, rows[i], values[i], id + i);
    }
  }

  /** The values a split hands to its nodes. */
  function SplitSecrets(g: Gf, s: Store, spec: NodeSpec, secret: Bytes, tapes: int -> Tape): Secrets
    requires SplitTree(g, s, spec, secret, tapes).Ok?
  {
    var d := Dealing(g, s.hardware, tapes);
    ValidateNodeExact(s, spec);
    UsableIsDealable(d, s, spec);
    SecretsOf(Dealt(d, spec, secret, s.nextId), s.nextId)
  }

  /** A valid split of a non-empty secret leaves a sound store whose root value is it, every split of it dealt with its
  own draw. */
  lemma SplitSound(g: Gf, s: Store, spec: NodeSpec, secret: Bytes, tapes: int -> Tape)
    requires Lawful(g) && s.rows == [] && secret != [] && SplitTree(g, s, spec, secret, tapes).Ok?
    ensures Sound(g, SplitTree(g, s, spec, secret, tapes).value, SplitSecrets(g, s, spec, secret, tapes))
    ensures Value(SplitTree(g, s, spec, secret, tapes).value.rows, SplitSecrets(g, s, spec, secret, tapes), 0) == secret
    ensures var rows := SplitTree(g, s, spec, secret, tapes).value.rows;
      FamiliesIn(Dealing(g, s.hardware, tapes), rows, SplitSecrets(g, s, spec, secret, tapes), 0, |rows|)
  {
    var s' := SplitTree(g, s, spec, secret, tapes).value;
    var d, id := Dealing(g, s.hardware, tapes), s.nextId;
    ValidateNodeExact(s, spec);
    UsableIsDealable(d, s, spec);
    var values := Dealt(d, spec, secret, id);
    var secrets := SecretsOf(values, id);
    RecordedSecrets(d, spec, secret, id);
    SplitContext(d, s', spec, secret, id);
    SplitShape(d, s', spec, secret, id);
    BlockFamilies(d, s'.rows, values, secrets, id, spec, None, secret, 0);
    FamiliesOfAll(d, s', secrets);
  }

  lemma FamiliesOfAll(d: Dealing, s: Store, secrets: Secrets)
    requires FamiliesIn(d, s.rows, secrets, 0, |s.rows|)
    ensures Families(d.g, s, secrets)
  {
    forall i | 0 <= i < |s.rows| && s.rows[i].threshold.Some? ensures exists polys :: Family(d.g, s.rows, secrets, i, polys) {
      assert HasFamily(d, s.rows, secrets, i);
    }
  }

  lemma {:induction false} SplitContext(d: Dealing, s: Store, spec: NodeSpec, secret: Bytes, id: int)
    requires Dealable(d, spec) && s.rows == Rows(d, spec, None, secret, id)
    ensures Numbered(s.rows, id) && AllActive(s.rows)
    ensures Placed(d, s.rows, Dealt(d, spec, secret, id), id, spec, None, secret, 0)
  {
    RowsAre(d, spec, None, secret, id);
    forall i | 0 <= i < |s.rows| ensures s.rows[i].id == id + i && s.rows[i].active {
      assert RowOf(d, s.rows[i], Dealt(d, spec, secret, id)[i], id + i);
    }
  }

  lemma {:induction false} SplitShape(d: Dealing, s: Store, spec: NodeSpec, secret: Bytes, id: int)
    requires Dealable(d, spec) && s.rows == Rows(d, spec, None, secret, id) && s.hardware == d.hardware
    requires s.nextId == id + Size(spec)
    requires forall i, j :: 0 <= i < j < |Names(spec)| ==> Names(spec)[i] != Names(spec)[j]
    ensures WellShaped(s)
  {
    RowsAre(d, spec, None, secret, id);
    RowsParents(d, spec, None, secret, id);
    forall i | 0 <= i < |s.rows|
      ensures RowOf(d, s.rows[i], Dealt(d, spec, secret, id)[i], id + i) && s.rows[i].name == Names(spec)[i]
    {
    }
    forall i | 0 <= i < |s.rows| ensures RowShape(s, i) {
      assert RowKind(s, i);
      if i > 0 {
        assert HasParent(s.rows, i);
      }
    }
  }

  /** From a split through any run of edits to a reconstruction: the split secret comes
  back exactly when the presentation meets the recursive threshold predicate. */
  lemma {:induction false} SplitRunReconstructs(g: Gf, s: Store, spec: NodeSpec, secret: Bytes, tapes: int -> Tape,
                             edits: seq<Edit>, raw: RawShares)
    requires Lawful(g) && s.rows == [] && secret != [] && spec.Split? && SplitTree(g, s, spec, secret, tapes).Ok?
    requires GenuineRun(g, SplitTree(g, s, spec, secret, tapes).value, SplitSecrets(g, s, spec, secret, tapes), edits)
    ensures var s' := Run(g, SplitTree(g, s, spec, secret, tapes).value, edits);
      && Load(s').Ok? && Rooted(Load(s').value) && |Load(s').value.nodes| == |s'.rows|
      && (Presented(Load(s').value, Values(s', SplitSecrets(g, s, spec, secret, tapes)), raw) ==>
            Reconstruct(g, Load(s').value, raw)
              == if Resolves(Load(s').value, 0, raw) then Ok(secret) else Err(QuorumNotMet))
  {
    SplitSound(g, s, spec, secret, tapes);
    WholeRunReconstructs(g, SplitTree(g, s, spec, secret, tapes).value, SplitSecrets(g, s, spec, secret, tapes), edits, raw);
  }

  // ----- exporting the live tree

  /** `export_node`: active children only, bridges sorted. */
  ghost function ExportNode(a: Arena, i: nat): NodeSpec
    requires Rooted(a) && i < |a.nodes|
    decreases Room(a, i), |a.nodes[i].children| + 1
  {
    var node := a.nodes[i];
    if node.hardwareKey.Some? then Leaf(node.name, node.hardwareKey.value, Strings.Sorted(node.bridges))
    else Split(node.name, (if node.threshold.Some? then node.threshold.value else 1) % 256,
               ExportNodes(a, i, node.children), Strings.Sorted(node.bridges))
  }

  ghost function ExportNodes(a: Arena, i: nat, cs: seq<nat>): seq<NodeSpec>
    requires Rooted(a) && i < |a.nodes| && forall c :: c in cs ==> IsParent(a, i, c)
    decreases Room(a, i), |cs|
  {
    if cs == [] then []
    else
      assert cs[0] in cs;
      (if a.nodes[cs[0]].active then [ExportNode(a, cs[0])] else []) + ExportNodes(a, i, cs[1..])
  }

  /** The specification with every bridge list sorted. */
  ghost function Canonical(spec: NodeSpec): NodeSpec
    decreases spec, 1
  {
    var bridges := Strings.Sorted(SetOf(spec.bridges));
    match spec
    case Leaf(name, key, _) => Leaf(name, key, bridges)
    case Split(name, t, cs, _) => Split(name, t, CanonicalAll(cs), bridges)
  }

  ghost function CanonicalAll(cs: seq<NodeSpec>): seq<NodeSpec>
    decreases cs, 0
  {
    if cs == [] then [] else [Canonical(cs[0])] + CanonicalAll(cs[1..])
  }

  ghost predicate Loaded(s: Store, a: Arena) {
    && Rooted(a) && |a.nodes| == |s.rows|
    && forall i :: 0 <= i < |s.rows| ==> a.nodes[i] == LoadNode(s, i)
  }

  /** The whitelist of the store lists these bridges for the rows from o on. */
  ghost predicate BridgesAt(s: Store, o: nat, bs: seq<seq<string>>) {
    o + |bs| <= |s.rows| && forall i :: 0 <= i < |bs| ==>
      BridgesOf(s.whitelist, s.rows[o + i].id) == SetOf(bs[i])
  }

  lemma BridgesConcat(s: Store, o: nat, a: seq<seq<string>>, b: seq<seq<string>>)
    requires BridgesAt(s, o, a + b)
    ensures BridgesAt(s, o, a) && BridgesAt(s, o + |a|, b)
  {
    forall i | 0 <= i < |a| ensures BridgesOf(s.whitelist, s.rows[o + i].id) == SetOf(a[i]) {
      assert (a + b)[i] == a[i];
    }
    forall i | 0 <= i < |b|
      ensures BridgesOf(s.whitelist, s.rows[o + |a| + i].id) == SetOf(b[i])
    {
      assert (a + b)[|a| + i] == b[i];
    }
  }

  function SetOf(names: seq<string>): set<string> {
    set k | 0 <= k < |names| :: names[k]
  }

  /** The loaded node of a placed block's first row carries the specification's own data. */
  lemma {:induction false} NodeAt(d: Dealing, s: Store, a: Arena, spec: NodeSpec, parent: Option<int>, value: Bytes,
                                  id: int, o: nat)
    requires Loaded(s, a) && Dealable(d, spec) && At(s.rows, o, Rows(d, spec, parent, value, id))
    requires BridgesAt(s, o, Bridges(spec))
    ensures o < |a.nodes| && a.nodes[o].active && a.nodes[o].name == spec.name
    ensures a.nodes[o].bridges == SetOf(spec.bridges)
    ensures match spec
      case Leaf(_, key, _) => a.nodes[o].hardwareKey == Some(key)
      case Split(_, t, _, _) => a.nodes[o].hardwareKey.None? && a.nodes[o].threshold == Some(t as nat)
  {
    AtIndex(s.rows, o, Rows(d, spec, parent, value, id), 0);
    assert BridgesOf(s.whitelist, s.rows[o + 0].id) == SetOf(Bridges(spec)[0]);
  }

  lemma {:induction false} BridgesBelow(s: Store, o: nat, spec: NodeSpec)
    requires BridgesAt(s, o, Bridges(spec)) && spec.Split?
    ensures BridgesAt(s, o + 1, BridgesAll(spec.children))
  {
    BridgesConcat(s, o, [spec.bridges], BridgesAll(spec.children));
  }

  lemma {:induction false} ExportChildren(d: Dealing, s: Store, a: Arena, values: seq<Bytes>, base: int,
                                       spec: NodeSpec, parent: Option<int>, value: Bytes, o: nat)
    requires Loaded(s, a) && Numbered(s.rows, base) && Placed(d, s.rows, values, base, spec, parent, value, o)
    requires BridgesAt(s, o, Bridges(spec)) && spec.Split? && o < |a.nodes|
    ensures AllBelow(a, o, a.nodes[o].children) && ExportNodes(a, o, a.nodes[o].children) == CanonicalAll(spec.children)
    decreases spec, 0
  {
    BlockChildren(d, s.rows, base, spec, parent, value, o);
    PlacedChildren(d, s.rows, values, base, spec, parent, value, o);
    BridgesBelow(s, o, spec);
    assert a.nodes[o].children == Offsets(spec.children, o + 1);
    ExportBlocks(d, s, a, values, base, spec.children, 0, o, Dealer(value, spec.threshold as nat, d.tapes(base + o)), o + 1);
  }

  /** A placed block exports to the canonical form of its specification. */
  lemma {:induction false} ExportBlock(d: Dealing, s: Store, a: Arena, values: seq<Bytes>, base: int,
                                       spec: NodeSpec, parent: Option<int>, value: Bytes, o: nat)
    requires Loaded(s, a) && Numbered(s.rows, base) && Placed(d, s.rows, values, base, spec, parent, value, o)
    requires BridgesAt(s, o, Bridges(spec))
    ensures o < |a.nodes| && a.nodes[o].active && ExportNode(a, o) == Canonical(spec)
    decreases spec, 1
  {
    NodeAt(d, s, a, spec, parent, value, base + o, o);
    if spec.Split? {
      ExportChildren(d, s, a, values, base, spec, parent, value, o);
    }
    ExportIs(a, o, spec);
  }

  lemma {:induction false} ExportIs(a: Arena, o: nat, spec: NodeSpec)
    requires Rooted(a) && o < |a.nodes| && a.nodes[o].name == spec.name && a.nodes[o].bridges == SetOf(spec.bridges)
    requires match spec
      case Leaf(_, key, _) => a.nodes[o].hardwareKey == Some(key)
      case Split(_, t, cs, _) => a.nodes[o].hardwareKey.None? && a.nodes[o].threshold == Some(t as nat)
                                 && ExportNodes(a, o, a.nodes[o].children) == CanonicalAll(cs)
    ensures ExportNode(a, o) == Canonical(spec)
  {
  }

  ghost predicate AllBelow(a: Arena, p: nat, os: seq<nat>) {
    forall c :: c in os ==> IsParent(a, p, c)
  }

  lemma {:induction false} BridgesFirst(s: Store, o: nat, cs: seq<NodeSpec>)
    requires cs != [] && BridgesAt(s, o, BridgesAll(cs))
    ensures BridgesAt(s, o, Bridges(cs[0])) && BridgesAt(s, o + Size(cs[0]), BridgesAll(cs[1..]))
  {
    BridgesConcat(s, o, Bridges(cs[0]), BridgesAll(cs[1..]));
  }

  /** The block of each of several siblings stands at its offset, with its bridges. */
  lemma {:induction false} PlacedSibling(d: Dealing, rows: seq<Row>, values: seq<Bytes>, base: int, cs: seq<NodeSpec>, k: nat,
                                         parent: int, polys: seq<Poly>, o: nat, j: nat) returns (value: Bytes)
    requires PlacedAll(d, rows, values, base, cs, k, parent, polys, o) && Numbered(rows, base) && j < |cs|
    ensures Placed(d, rows, values, base, cs[j], Some(parent), value, Offsets(cs, o)[j])
    decreases j
  {
    PlacedFirst(d, rows, values, base, cs, k, parent, polys, o);
    OffsetsFirst(cs, o, j);
    value := ShareAt(d.g, polys, Point(k));
    if j > 0 {
      value := PlacedSibling(d, rows, values, base, cs[1..], k + 1, parent, polys, o + Size(cs[0]), j - 1);
    }
  }

  lemma {:induction false} BridgesSibling(s: Store, o: nat, cs: seq<NodeSpec>, j: nat)
    requires BridgesAt(s, o, BridgesAll(cs)) && j < |cs|
    ensures BridgesAt(s, Offsets(cs, o)[j], Bridges(cs[j]))
    decreases j
  {
    BridgesFirst(s, o, cs);
    OffsetsFirst(cs, o, j);
    if j > 0 {
      BridgesSibling(s, o + Size(cs[0]), cs[1..], j - 1);
    }
  }

  /** Node o is active and exports to the canonical form of spec. */
  ghost predicate ExportsTo(a: Arena, o: nat, spec: NodeSpec)
    requires Rooted(a)
  {
    o < |a.nodes| && a.nodes[o].active && ExportNode(a, o) == Canonical(spec)
  }

  ghost predicate ExportEach(a: Arena, os: seq<nat>, specs: seq<NodeSpec>)
    requires Rooted(a)
  {
    |os| == |specs| && forall j :: 0 <= j < |os| ==> ExportsTo(a, os[j], specs[j])
  }

  lemma ExportEachRest(a: Arena, p: nat, os: seq<nat>, specs: seq<NodeSpec>)
    requires Rooted(a) && os != [] && ExportEach(a, os, specs) && AllBelow(a, p, os)
    ensures ExportEach(a, os[1..], specs[1..]) && AllBelow(a, p, os[1..]) && IsParent(a, p, os[0])
  {
    assert os[0] in os;
    forall j | 0 <= j < |os[1..]| ensures ExportsTo(a, os[1..][j], specs[1..][j]) {
      assert ExportsTo(a, os[j + 1], specs[j + 1]);
    }
  }

  lemma {:induction false} ExportsAll(a: Arena, p: nat, os: seq<nat>, specs: seq<NodeSpec>)
    requires Rooted(a) && p < |a.nodes| && AllBelow(a, p, os) && ExportEach(a, os, specs)
    ensures ExportNodes(a, p, os) == CanonicalAll(specs)
    decreases os
  {
    if os != [] {
      assert ExportsTo(a, os[0], specs[0]);
      ExportEachRest(a, p, os, specs);
      ExportsAll(a, p, os[1..], specs[1..]);
    }
  }

  lemma {:induction false} ExportSibling(d: Dealing, s: Store, a: Arena, values: seq<Bytes>, base: int,
                                         cs: seq<NodeSpec>, k: nat, p: nat, polys: seq<Poly>, o: nat, j: nat)
    requires Loaded(s, a) && Numbered(s.rows, base) && p < |a.nodes| && j < |cs|
    requires PlacedAll(d, s.rows, values, base, cs, k, base + p, polys, o)
    requires BridgesAt(s, o, BridgesAll(cs))
    ensures ExportsTo(a, Offsets(cs, o)[j], cs[j])
    decreases cs, 0, 0
  {
    var value := PlacedSibling(d, s.rows, values, base, cs, k, base + p, polys, o, j);
    BridgesSibling(s, o, cs, j);
    var at := Offsets(cs, o)[j];
    ExportBlock(d, s, a, values, base, cs[j], Some(base + p), value, at);
  }

  lemma {:induction false} ExportBlocks(d: Dealing, s: Store, a: Arena, values: seq<Bytes>, base: int,
                                        cs: seq<NodeSpec>, k: nat, p: nat, polys: seq<Poly>, o: nat)
    requires Loaded(s, a) && Numbered(s.rows, base) && p < |a.nodes|
    requires PlacedAll(d, s.rows, values, base, cs, k, base + p, polys, o)
    requires BridgesAt(s, o, BridgesAll(cs)) && AllBelow(a, p, Offsets(cs, o))
    ensures ExportNodes(a, p, Offsets(cs, o)) == CanonicalAll(cs)
    decreases cs, 0, 1
  {
    forall j | 0 <= j < |cs| ensures ExportsTo(a, Offsets(cs, o)[j], cs[j]) {
      ExportSibling(d, s, a, values, base, cs, k, p, polys, o, j);
    }
    ExportsAll(a, p, Offsets(cs, o), cs);
  }

  lemma {:induction false} SplitBridges(s: Store, s': Store, spec: NodeSpec, id: int)
    requires s'.whitelist == s.whitelist + WhitelistOf(spec, id) && Numbered(s'.rows, id) && |s'.rows| == Size(spec)
    requires forall e :: e in s.whitelist ==> e.0 < id
    ensures BridgesAt(s', 0, Bridges(spec))
  {
    forall i | 0 <= i < Size(spec) ensures BridgesOf(s'.whitelist, s'.rows[0 + i].id) == SetOf(Bridges(spec)[i]) {
      forall x | x in SetOf(Bridges(spec)[i]) ensures (id + i, x) in s'.whitelist {
      }
    }
  }

  /** Flatten and rebuild: splitting a specification, loading the rows and exporting gives
  the specification back, every bridge list sorted and the order of children kept. */
  lemma {:induction false} ExportSplit(g: Gf, s: Store, spec: NodeSpec, secret: Bytes, tapes: int -> Tape)
    requires SplitTree(g, s, spec, secret, tapes).Ok?
    requires forall e :: e in s.whitelist ==> e.0 < s.nextId
    ensures var s' := SplitTree(g, s, spec, secret, tapes).value;
      && Load(s').Ok? && Rooted(Load(s').value)
      && ExportNode(Load(s').value, Load(s').value.root) == Canonical(spec)
  {
    var s' := SplitTree(g, s, spec, secret, tapes).value;
    var d, id := Dealing(g, s.hardware, tapes), s.nextId;
    ValidateNodeExact(s, spec);
    UsableIsDealable(d, s, spec);
    SplitContext(d, s', spec, secret, id);
    SplitShape(d, s', spec, secret, id);
    SplitBridges(s, s', spec, id);
    SoundLoads(s');
    ExportBlock(d, s', Load(s').value, Dealt(d, spec, secret, id), id, spec, None, secret, 0);
  }
}
