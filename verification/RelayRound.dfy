/** From the relay to a personal store and back: a pulled slice, applied to an empty store, exported and
pushed, leaves the relay's document as it was (`src/relay/org_tree.rs`, `src/key_tree.rs`). */
module RelayRound {
  import opened Lists
  import opened PublicTrees
  import opened OrgTree
  import opened TreeMerge
  import opened TreeSlices
  import opened RelayTrees
  import opened KeyStore
  import opened ApplyTree
  import opened ApplySchedule
  import opened ApplyRound

  // ----- lists up to order

  lemma SameMembers<T>(a: seq<T>, b: seq<T>)
    requires multiset(a) == multiset(b)
    ensures forall x :: x in a <==> x in b
  {
    forall x ensures x in a <==> x in b {
      assert x in multiset(a) <==> x in multiset(b);
    }
  }

  lemma DistinctByCount<T>(a: seq<T>, b: seq<T>)
    requires multiset(a) == multiset(b) && Distinct(b)
    ensures Distinct(a)
  {
    forall i, j | 0 <= i < j < |a| ensures a[i] != a[j] {
      if a[i] == a[j] {
        TwoCopies(a, i, j);
        CountDistinct(b, a[i]);
      }
    }
  }

  // ----- respelling the keys of nodes

  lemma RespelledAppend(enc: Encoding, a: seq<PublicNode>, b: seq<PublicNode>)
    ensures RespelledAll(enc, a + b) == RespelledAll(enc, a) + RespelledAll(enc, b)
  {
  }

  lemma RespelledTwice(enc: Encoding, a: seq<PublicNode>)
    requires EncodingLaws(enc)
    ensures RespelledAll(enc, RespelledAll(enc, a)) == RespelledAll(enc, a)
  {
  }

  lemma TakeOut<T>(b: seq<T>, x: T) returns (front: seq<T>, back: seq<T>)
    requires x in b
    ensures b == front + ([x] + back) && multiset(front + back) == multiset(b) - multiset{x}
  {
    var i :| 0 <= i < |b| && b[i] == x;
    front, back := b[..i], b[i + 1..];
    assert b == front + ([x] + back);
  }

  lemma RespelledAround(enc: Encoding, front: seq<PublicNode>, x: PublicNode, back: seq<PublicNode>)
    ensures multiset(RespelledAll(enc, front + ([x] + back)))
         == multiset(RespelledAll(enc, front + back)) + multiset{Respelled(enc, x)}
  {
    RespelledAppend(enc, front, [x] + back);
    RespelledAppend(enc, [x], back);
    RespelledAppend(enc, front, back);
    assert RespelledAll(enc, [x]) == [Respelled(enc, x)];
  }

  lemma HeadOut<T>(a: seq<T>)
    requires a != []
    ensures a == [] + ([a[0]] + a[1..]) && multiset([] + a[1..]) == multiset(a) - multiset{a[0]}
  {
    assert a == [a[0]] + a[1..];
    assert [] + a[1..] == a[1..];
  }

  lemma {:induction false} RespelledReordered(enc: Encoding, a: seq<PublicNode>, b: seq<PublicNode>)
    requires multiset(a) == multiset(b)
    ensures multiset(RespelledAll(enc, a)) == multiset(RespelledAll(enc, b))
    decreases |a|
  {
    assert |a| == |multiset(a)| && |b| == |multiset(b)|;
    if a != [] {
      assert a[0] in b by {
        SameMembers(a, b);
      }
      HeadOut(a);
      var front, back := TakeOut(b, a[0]);
      assert |[] + a[1..]| < |a|;
      RespelledReordered(enc, [] + a[1..], front + back);
      RespelledAround(enc, [], a[0], a[1..]);
      RespelledAround(enc, front, a[0], back);
    }
  }

  lemma {:induction false} RespelledParents(enc: Encoding, nodes: seq<PublicNode>)
    ensures ParentMap(RespelledAll(enc, nodes)) == ParentMap(nodes)
  {
    if nodes != [] {
      var n := |nodes| - 1;
      assert RespelledAll(enc, nodes)[..n] == RespelledAll(enc, nodes[..n]);
      RespelledParents(enc, nodes[..n]);
    }
  }

  lemma RespelledNode(enc: Encoding, n: PublicNode)
    requires EncodingLaws(enc) && ShapeOk(n)
    ensures ShapeOk(Respelled(enc, n)) && Respelled(enc, n) == n.(publicKey := Respelled(enc, n).publicKey)
  {
  }

  lemma RespelledNames(enc: Encoding, nodes: seq<PublicNode>)
    ensures Names(RespelledAll(enc, nodes)) == Names(nodes)
  {
    RespelledParents(enc, nodes);
    assert ParentMap(RespelledAll(enc, nodes)).Keys == ParentMap(nodes).Keys;
  }

  lemma RespelledNodes(enc: Encoding, nodes: seq<PublicNode>, r: nat)
    requires EncodingLaws(enc) && NodesOk(nodes) && RootAt(nodes, r) && ParentsListed(nodes)
    ensures var q := RespelledAll(enc, nodes); NodesOk(q) && RootAt(q, r) && ParentsListed(q)
  {
    var q := RespelledAll(enc, nodes);
    RespelledNames(enc, nodes);
    forall i | 0 <= i < |q| ensures q[i].name == nodes[i].name && q[i].parent == nodes[i].parent && ShapeOk(q[i]) {
      RespelledNode(enc, nodes[i]);
    }
    forall i | 0 <= i < |q| ensures ParentListed(q[i], Names(q)) {
      assert ParentListed(nodes[i], Names(nodes));
    }
  }

  lemma RespelledValid(enc: Encoding, t: PublicTree, r: nat)
    requires EncodingLaws(enc) && ValidWithRoot(t, r)
    ensures ValidWithRoot(RespelledTree(enc, t), r)
    ensures Names(RespelledAll(enc, t.nodes)) == Names(t.nodes)
  {
    var q, root := RespelledAll(enc, t.nodes), t.nodes[r].name;
    RespelledParents(enc, t.nodes);
    RespelledNames(enc, t.nodes);
    RespelledNodes(enc, t.nodes, r);
    assert q[r].name == root;
    forall i | 0 <= i < |q| ensures Reaches(ParentMap(q), q[i].name, root) {
      assert Reaches(ParentMap(t.nodes), t.nodes[i].name, root);
    }
  }

  // ----- the same tree in another order

  lemma ReorderedNodes(a: seq<PublicNode>, b: seq<PublicNode>)
    requires multiset(a) == multiset(b) && NodesOk(b)
    ensures NodesOk(a) && Names(a) == Names(b) && ParentMap(a) == ParentMap(b)
    ensures forall n :: n in a <==> n in b
  {
    SameMembers(a, b);
    DistinctByMultiset(a, b);
    forall i | 0 <= i < |a| ensures a[i].name != "" && ShapeOk(a[i]) {
      assert a[i] in b;
    }
    forall x ensures x in Names(a) <==> x in Names(b) {
      if x in Names(a) {
        var n := NameOf(a, x);
        NameIn(b, n);
      }
      if x in Names(b) {
        var n := NameOf(b, x);
        NameIn(a, n);
      }
    }
    forall x | x in Names(a) ensures ParentMap(a)[x] == ParentMap(b)[x] {
      var n := NameOf(a, x);
      ParentMapOf(a, n);
      ParentMapOf(b, n);
    }
  }

  lemma ReorderedRoot(a: seq<PublicNode>, b: seq<PublicNode>, r: nat) returns (k: nat)
    requires DistinctNames(a) && (forall n :: n in a <==> n in b) && RootAt(b, r)
    ensures RootAt(a, k) && a[k] == b[r]
  {
    assert b[r] in a;
    k :| 0 <= k < |a| && a[k] == b[r];
    forall i | 0 <= i < |a| ensures a[i].parent.None? <==> i == k {
      assert a[i] in b;
      var j :| 0 <= j < |b| && b[j] == a[i];
    }
  }

  lemma ReorderedEdges(p: PublicTree, s: PublicTree)
    requires SameTree(p, s) && EdgesOk(s) && Names(p.nodes) == Names(s.nodes)
    ensures EdgesOk(p)
  {
    SameMembers(p.whitelist, s.whitelist);
    DistinctByCount(p.whitelist, s.whitelist);
    forall e | e in p.links ensures EndsOk(e, Names(p.nodes)) && Whitelisted(e, p.whitelist) {
      var f := if e in s.links then e else e.Flipped();
      assert EndsOk(f, Names(s.nodes)) && Whitelisted(f, s.whitelist);
    }
  }

  lemma ReorderedValid(p: PublicTree, s: PublicTree, r: nat) returns (k: nat)
    requires SameTree(p, s) && ValidWithRoot(s, r)
    ensures ValidWithRoot(p, k) && p.nodes[k] == s.nodes[r] && Names(p.nodes) == Names(s.nodes)
  {
    ReorderedNodes(p.nodes, s.nodes);
    k := ReorderedRoot(p.nodes, s.nodes, r);
    ReorderedEdges(p, s);
    forall i | 0 <= i < |p.nodes| ensures ParentListed(p.nodes[i], Names(p.nodes)) {
      assert p.nodes[i] in s.nodes;
    }
    forall i | 0 <= i < |p.nodes| ensures Reaches(ParentMap(p.nodes), p.nodes[i].name, p.nodes[k].name) {
      assert p.nodes[i] in s.nodes;
    }
  }

  // ----- pushing an exported slice back

  /** Two documents with the same contents, up to order, the direction of links and the spelling of keys. */
  ghost predicate SameDocument(enc: Encoding, a: PublicTree, b: PublicTree) {
    && a.name == b.name
    && multiset(RespelledAll(enc, a.nodes)) == multiset(RespelledAll(enc, b.nodes))
    && multiset(a.whitelist) == multiset(b.whitelist)
    && (forall e :: e in a.links || e.Flipped() in a.links <==> e in b.links || e.Flipped() in b.links)
  }

  lemma NodesGoBack(enc: Encoding, full: PublicTree, slice: PublicTree, p: PublicTree)
    requires EncodingLaws(enc) && Names(p.nodes) == Names(slice.nodes)
    requires multiset(p.nodes) == multiset(RespelledAll(enc, slice.nodes))
    requires multiset(Merged(full, slice).nodes) == multiset(full.nodes)
    ensures multiset(RespelledAll(enc, Merged(full, p).nodes)) == multiset(RespelledAll(enc, full.nodes))
  {
    var kept := Keep(full.nodes, Unmentioned(Names(slice.nodes)));
    RespelledAppend(enc, p.nodes, kept);
    RespelledAppend(enc, slice.nodes, kept);
    RespelledReordered(enc, p.nodes, RespelledAll(enc, slice.nodes));
    RespelledTwice(enc, slice.nodes);
    RespelledReordered(enc, Merged(full, slice).nodes, full.nodes);
  }

  lemma WhitelistGoesBack(full: PublicTree, slice: PublicTree, p: PublicTree)
    requires Names(p.nodes) == Names(slice.nodes) && multiset(p.whitelist) == multiset(slice.whitelist)
    requires Distinct(full.whitelist) && Distinct(slice.whitelist)
    requires multiset(Merged(full, slice).whitelist) == multiset(full.whitelist)
    ensures multiset(Merged(full, p).whitelist) == multiset(full.whitelist)
  {
    SameMembers(p.whitelist, slice.whitelist);
    SameMembers(Merged(full, slice).whitelist, full.whitelist);
    DistinctByCount(p.whitelist, slice.whitelist);
    MergeKeeps(full, slice);
    MergeKeeps(full, p);
    MergeEdgesDistinct(p.whitelist, full.whitelist, Names(p.nodes));
    SameUpToOrder(Merged(full, p).whitelist, full.whitelist);
  }

  lemma LinksGoBack(full: PublicTree, slice: PublicTree, p: PublicTree, e: PublicEdge)
    requires Names(p.nodes) == Names(slice.nodes)
    requires forall f :: f in p.links || f.Flipped() in p.links <==> f in slice.links || f.Flipped() in slice.links
    requires multiset(Merged(full, slice).links) == multiset(full.links)
    ensures var m := Merged(full, p).links; e in m || e.Flipped() in m <==> e in full.links || e.Flipped() in full.links
  {
    SameMembers(Merged(full, slice).links, full.links);
    MergeKeeps(full, slice);
    MergeKeeps(full, p);
    assert e.Within(Names(p.nodes)) <==> e.Flipped().Within(Names(p.nodes));
  }

  /** An exported slice is valid, merges into its document, and changes nothing there. */
  lemma ExportGoesBack(enc: Encoding, full: PublicTree, fingerprint: string, slice: PublicTree, p: PublicTree)
    requires EncodingLaws(enc) && ValidTree(full) && Seeds(full.nodes, fingerprint) != []
    requires IsSlice(full, fingerprint, slice) && SameTree(p, RespelledTree(enc, slice))
    ensures ValidTree(p) && ValidTree(Merged(full, p)) && SameDocument(enc, Merged(full, p), full)
  {
    ExportMerges(enc, full, fingerprint, slice, p);
    SliceMergesBack(full, fingerprint, slice);
    SliceIsValid(full, fingerprint, slice);
    NodesGoBack(enc, full, slice, p);
    WhitelistGoesBack(full, slice, p);
    forall e ensures var m := Merged(full, p).links;
      e in m || e.Flipped() in m <==> e in full.links || e.Flipped() in full.links
    {
      LinksGoBack(full, slice, p, e);
    }
    assert p.name == full.name;
  }

  lemma ExportMerges(enc: Encoding, full: PublicTree, fingerprint: string, slice: PublicTree, p: PublicTree)
    requires EncodingLaws(enc) && ValidTree(full) && Seeds(full.nodes, fingerprint) != []
    requires IsSlice(full, fingerprint, slice) && SameTree(p, RespelledTree(enc, slice))
    ensures ValidTree(p) && ValidTree(Merged(full, p)) && Names(p.nodes) == Names(slice.nodes)
  {
    SliceIsValid(full, fingerprint, slice);
    var r: nat :| ValidWithRoot(slice, r);
    RespelledValid(enc, slice, r);
    var k := ReorderedValid(p, RespelledTree(enc, slice), r);
    RootNameMeaning(slice.nodes, r);
    NameIn(slice.nodes, slice.nodes[r]);
    MergeExact(full, p);
  }

  /** The whole way round: the relay slices its document for a fingerprint, an empty personal store applies
  the slice and exports it, and the export is pushed. The apply succeeds if no key of the slice is held
  for signing or contradicts its fingerprint, and the relay then holds the same document one generation
  on. */
  lemma RelayRoundTrip(enc: Encoding, keys: seq<HardwareKey>, nextId: int, docs: Docs, name: string, fingerprint: string,
                       slice: PublicTree, p: PublicTree)
    requires EncodingLaws(enc) && ValidDocs(docs) && name in docs && Seeds(docs[name].document.nodes, fingerprint) != []
    requires IsSlice(docs[name].document, fingerprint, slice)
    requires ApplyTo(enc, FreshTree(name), keys, nextId, slice).Ok? ==>
      var r := ApplyTo(enc, FreshTree(name), keys, nextId, slice).value; IsExport(enc, r.0, r.1.keys, p)
    ensures ApplyTo(enc, FreshTree(name), keys, nextId, slice).Ok? <==> AllFit(enc, keys, slice.nodes)
    ensures AllFit(enc, keys, slice.nodes) ==> var after := After(docs, MergeIn(p));
      && name in after && after[name].generation == SaturatingNext(docs[name].generation)
      && SameDocument(enc, after[name].document, docs[name].document)
  {
    var full := docs[name].document;
    assert ValidDoc(name, docs[name]);
    SliceIsValid(full, fingerprint, slice);
    assert slice.name == name && slice.generation == full.generation >= 1;
    FreshApplyIff(enc, keys, nextId, slice);
    if AllFit(enc, keys, slice.nodes) {
      ApplyThenExport(enc, keys, nextId, slice, p);
      ExportGoesBack(enc, full, fingerprint, slice, p);
      MergeStores(docs, p);
    }
  }
}
