/** When a specification can be split, said of its nodes one by one (`validate` and `split` in `src/key_tree.rs`). */
module SplitExact {
  import opened Field
  import opened Shamir
  import opened KeyStore
  import opened KeySplit

  /** All nodes of a specification, parents before children. */
  ghost function Nodes(spec: NodeSpec): (ns: seq<NodeSpec>)
    ensures |ns| == Size(spec) && ns[0] == spec
    decreases spec, 1
  {
    if spec.Leaf? then [spec] else [spec] + NodesAll(spec.children)
  }

  ghost function NodesAll(cs: seq<NodeSpec>): (ns: seq<NodeSpec>)
    ensures |ns| == SizeAll(cs)
    decreases cs, 0
  {
    if cs == [] then [] else Nodes(cs[0]) + NodesAll(cs[1..])
  }

  lemma {:induction false} NodesAre(spec: NodeSpec)
    ensures forall i :: 0 <= i < Size(spec) ==>
      Names(spec)[i] == Nodes(spec)[i].name && Bridges(spec)[i] == Nodes(spec)[i].bridges
    decreases spec, 1
  {
    if spec.Split? {
      NodesAllAre(spec.children);
    }
  }

  lemma {:induction false} NodesAllAre(cs: seq<NodeSpec>)
    ensures forall i :: 0 <= i < SizeAll(cs) ==>
      NamesAll(cs)[i] == NodesAll(cs)[i].name && BridgesAll(cs)[i] == NodesAll(cs)[i].bridges
    decreases cs, 0
  {
    if cs != [] {
      NodesAre(cs[0]);
      NodesAllAre(cs[1..]);
    }
  }

  /** A leaf's key can be used, a split's threshold is positive and within its children, at most 255 of them. */
  predicate Fit(s: Store, n: NodeSpec) {
    match n
    case Leaf(_, key, _) => key in s.hardware && s.hardware[key].encryption && !s.hardware[key].revoked
    case Split(_, t, cs, _) => 1 <= t as nat <= |cs| <= 255
  }

  ghost predicate AllFit(s: Store, ns: seq<NodeSpec>) {
    forall i :: 0 <= i < |ns| ==> Fit(s, ns[i])
  }

  lemma AllFitBoth(s: Store, a: seq<NodeSpec>, b: seq<NodeSpec>)
    ensures AllFit(s, a + b) <==> AllFit(s, a) && AllFit(s, b)
  {
    forall i | 0 <= i < |a| ensures a[i] == (a + b)[i] {
    }
    forall i | 0 <= i < |b| ensures b[i] == (a + b)[|a| + i] {
    }
  }

  lemma {:induction false} FitIff(s: Store, spec: NodeSpec)
    ensures ValidateNode(s, spec).Ok? <==> AllFit(s, Nodes(spec))
    decreases spec, 1
  {
    if spec.Leaf? {
      assert Nodes(spec)[0] == spec;
    } else {
      FitAllIff(s, spec.children);
      AllFitBoth(s, [spec], NodesAll(spec.children));
      assert Nodes(spec)[0] == spec;
      assert AllFit(s, [spec]) <==> Fit(s, [spec][0]);
    }
  }

  lemma {:induction false} FitAllIff(s: Store, cs: seq<NodeSpec>)
    ensures ValidateNodes(s, cs).Ok? <==> AllFit(s, NodesAll(cs))
    decreases cs, 0
  {
    if cs != [] {
      FitIff(s, cs[0]);
      FitAllIff(s, cs[1..]);
      AllFitBoth(s, Nodes(cs[0]), NodesAll(cs[1..]));
    }
  }

  /** A node's bridges name other nodes. */
  predicate Outward(n: NodeSpec, names: seq<string>) {
    forall k :: 0 <= k < |n.bridges| ==> n.bridges[k] != n.name && n.bridges[k] in names
  }

  ghost predicate AllOutward(ns: seq<NodeSpec>, names: seq<string>) {
    forall i :: 0 <= i < |ns| ==> Outward(ns[i], names)
  }

  lemma OutwardBoth(a: seq<NodeSpec>, b: seq<NodeSpec>, names: seq<string>)
    ensures AllOutward(a + b, names) <==> AllOutward(a, names) && AllOutward(b, names)
  {
    forall i | 0 <= i < |a| ensures a[i] == (a + b)[i] {
    }
    forall i | 0 <= i < |b| ensures b[i] == (a + b)[|a| + i] {
    }
  }

  lemma {:induction false} OutwardIff(spec: NodeSpec, names: seq<string>)
    ensures BridgesNamed(spec, names) <==> AllOutward(Nodes(spec), names)
    decreases spec, 1
  {
    assert Nodes(spec)[0] == spec;
    if spec.Split? {
      OutwardAllIff(spec.children, names);
      OutwardBoth([spec], NodesAll(spec.children), names);
      assert AllOutward([spec], names) <==> Outward([spec][0], names);
    }
  }

  lemma {:induction false} OutwardAllIff(cs: seq<NodeSpec>, names: seq<string>)
    ensures (forall k :: 0 <= k < |cs| ==> BridgesNamed(cs[k], names)) <==> AllOutward(NodesAll(cs), names)
    decreases cs, 0
  {
    if cs != [] {
      OutwardIff(cs[0], names);
      OutwardAllIff(cs[1..], names);
      OutwardBoth(Nodes(cs[0]), NodesAll(cs[1..]), names);
      assert forall k :: 0 <= k < |cs[1..]| ==> cs[1..][k] == cs[k + 1];
      assert forall k :: 0 < k < |cs| ==> cs[k] == cs[1..][k - 1];
    }
  }

  /** Node i of the list has a label of its own, and its bridges name each of some others once. */
  ghost predicate NodeOk(s: Store, ns: seq<NodeSpec>, i: nat)
    requires i < |ns|
  {
    var n := ns[i];
    && Fit(s, n) && n.name != "" && (forall j :: 0 <= j < |ns| && j != i ==> ns[j].name != n.name)
    && (forall k, l :: 0 <= k < l < |n.bridges| ==> n.bridges[k] != n.bridges[l])
    && (forall k :: 0 <= k < |n.bridges| ==> NamesOther(ns, i, n.bridges[k]))
  }

  ghost predicate NamesOther(ns: seq<NodeSpec>, i: nat, name: string) {
    exists j :: 0 <= j < |ns| && j != i && ns[j].name == name
  }

  ghost predicate CanSplit(s: Store, spec: NodeSpec) {
    forall i :: 0 <= i < |Nodes(spec)| ==> NodeOk(s, Nodes(spec), i)
  }

  /** A specification is split exactly if every node of it is in order: a usable key or a possible threshold, a label
  of its own, and bridges that name others, each once. */
  lemma {:induction false} SplitSucceedsIff(g: Gf, s: Store, spec: NodeSpec, secret: Bytes, tapes: int -> Tape)
    ensures SplitTree(g, s, spec, secret, tapes).Ok? <==> CanSplit(s, spec)
  {
    var ns, names, bs := Nodes(spec), Names(spec), Bridges(spec);
    NodesAre(spec);
    FitIff(s, spec);
    OutwardIff(spec, names);
    if SplitTree(g, s, spec, secret, tapes).Ok? {
      forall i | 0 <= i < |ns| ensures NodeOk(s, ns, i) {
        SplitNodeOk(s, spec, i);
      }
    }
    if CanSplit(s, spec) {
      CanSplitPasses(s, spec);
    }
  }

  lemma {:induction false} SplitNodeOk(s: Store, spec: NodeSpec, i: nat)
    requires AllFit(s, Nodes(spec)) && AllOutward(Nodes(spec), Names(spec)) && "" !in Names(spec)
    requires forall j, k :: 0 <= j < k < |Names(spec)| ==> Names(spec)[j] != Names(spec)[k]
    requires !BridgesRepeat(spec) && i < |Nodes(spec)|
    ensures NodeOk(s, Nodes(spec), i)
  {
    var ns, n := Nodes(spec), Nodes(spec)[i];
    NodesAre(spec);
    assert Fit(s, ns[i]) && Outward(ns[i], Names(spec));
    assert Names(spec)[i] in Names(spec);
    forall j | 0 <= j < |ns| && j != i ensures ns[j].name != n.name {
      assert Names(spec)[j] != Names(spec)[i];
    }
    forall k, l | 0 <= k < l < |n.bridges| ensures n.bridges[k] != n.bridges[l] {
      assert Bridges(spec)[i] == n.bridges;
    }
    forall k | 0 <= k < |n.bridges| ensures NamesOther(ns, i, n.bridges[k]) {
      var j :| 0 <= j < |Names(spec)| && Names(spec)[j] == n.bridges[k];
      assert ns[j].name == n.bridges[k] != n.name;
    }
  }

  lemma {:induction false} CanSplitPasses(s: Store, spec: NodeSpec)
    requires CanSplit(s, spec)
    ensures AllFit(s, Nodes(spec)) && AllOutward(Nodes(spec), Names(spec)) && "" !in Names(spec) && !BridgesRepeat(spec)
    ensures forall j, k :: 0 <= j < k < |Names(spec)| ==> Names(spec)[j] != Names(spec)[k]
  {
    var ns := Nodes(spec);
    NodesAre(spec);
    forall i | 0 <= i < |ns|
      ensures Fit(s, ns[i]) && Names(spec)[i] != "" && forall k :: i < k < |ns| ==> Names(spec)[i] != Names(spec)[k]
    {
      assert NodeOk(s, ns, i);
    }
    forall i, j, k | 0 <= i < |ns| && 0 <= j < k < |Bridges(spec)[i]| ensures Bridges(spec)[i][j] != Bridges(spec)[i][k] {
      assert NodeOk(s, ns, i);
    }
    forall i | 0 <= i < |ns| ensures Outward(ns[i], Names(spec)) {
      NodeOutward(s, spec, i);
    }
  }

  lemma {:induction false} NodeOutward(s: Store, spec: NodeSpec, i: nat)
    requires i < |Nodes(spec)| && NodeOk(s, Nodes(spec), i)
    ensures Outward(Nodes(spec)[i], Names(spec))
  {
    var ns, n := Nodes(spec), Nodes(spec)[i];
    NodesAre(spec);
    forall k | 0 <= k < |n.bridges| ensures n.bridges[k] != n.name && n.bridges[k] in Names(spec) {
      assert NamesOther(ns, i, n.bridges[k]);
      var j :| 0 <= j < |ns| && j != i && ns[j].name == n.bridges[k];
      assert Names(spec)[j] == n.bridges[k];
    }
  }
}
