/** `export_public_tree` in `src/key_tree.rs` as statements. */
module ApplyExport {
  import opened Errors
  import opened PublicTrees
  import Strings
  import opened KeyStore
  import opened ApplyTree

  function InsertEdge(x: PublicEdge, edges: seq<PublicEdge>): seq<PublicEdge> {
    if edges == [] then [x]
    else if EdgeBefore(x, edges[0]) then [x] + edges
    else [edges[0]] + InsertEdge(x, edges[1..])
  }

  lemma EdgeOrder(a: PublicEdge, b: PublicEdge, c: PublicEdge)
    ensures EdgeBefore(a, b) || a == b || EdgeBefore(b, a)
    ensures EdgeBefore(a, b) && EdgeBefore(b, c) ==> EdgeBefore(a, c)
  {
    Strings.LessTotal(a.source, b.source);
    Strings.LessTotal(a.target, b.target);
    if EdgeBefore(a, b) && EdgeBefore(b, c) {
      if Strings.Less(a.source, b.source) && Strings.Less(b.source, c.source) {
        Strings.LessTransitive(a.source, b.source, c.source);
      } else if a.source == b.source == c.source {
        Strings.LessTransitive(a.target, b.target, c.target);
      }
    }
  }

  lemma {:induction false} InsertEdgeAscends(x: PublicEdge, edges: seq<PublicEdge>)
    requires EdgesAscend(edges) && x !in edges
    ensures EdgesAscend(InsertEdge(x, edges)) && forall e :: e in InsertEdge(x, edges) <==> e == x || e in edges
  {
    if edges != [] {
      var first, rest := edges[0], edges[1..];
      EdgeOrder(x, first, first);
      if EdgeBefore(x, first) {
        forall j | 0 <= j < |edges| ensures EdgeBefore(x, edges[j]) {
          if j > 0 {
            EdgeOrder(x, first, edges[j]);
          }
        }
      } else {
        InsertEdgeAscends(x, rest);
        forall e | e in InsertEdge(x, rest) ensures EdgeBefore(first, e) {
        }
      }
    }
  }

  /** The edges some items stand for, ordered as the queries order them. */
  method Collect<T(!new)>(items: set<T>, edgeOf: T -> Option<PublicEdge>) returns (edges: seq<PublicEdge>)
    requires forall a, b :: a in items && b in items && edgeOf(a).Some? && edgeOf(a) == edgeOf(b) ==> a == b
    ensures EdgesAscend(edges) && forall e :: e in edges <==> exists a :: a in items && edgeOf(a) == Some(e)
  {
    edges := [];
    var todo := items;
    while todo != {}
      invariant todo <= items && EdgesAscend(edges)
      invariant forall e :: e in edges <==> exists a :: a in items - todo && edgeOf(a) == Some(e)
      decreases |todo|
    {
      var a :| a in todo;
      var edge := edgeOf(a);
      assert items - (todo - {a}) == (items - todo) + {a};
      if edge.Some? {
        assert edge.value !in edges;
        InsertEdgeAscends(edge.value, edges);
        edges := InsertEdge(edge.value, edges);
      }
      todo := todo - {a};
    }
    assert items - todo == items;
  }

  function NameOfId(rows: seq<Row>, id: int): Option<string> {
    IndexOfIdFinds(rows, id);
    match IndexOfId(rows, id)
    case None => None
    case Some(i) => Some(rows[i].name)
  }

  lemma NameOfIdIs(rows: seq<Row>, id: int, name: string)
    requires Ordered(rows)
    ensures NameOfId(rows, id) == Some(name) <==> exists i :: 0 <= i < |rows| && rows[i].id == id && rows[i].name == name
  {
    IndexOfIdFinds(rows, id);
  }

  lemma NameOfIdInjective(rows: seq<Row>, a: int, b: int)
    requires Ordered(rows) && NamesDiffer(rows) && NameOfId(rows, a).Some? && NameOfId(rows, a) == NameOfId(rows, b)
    ensures a == b
  {
    IndexOfIdFinds(rows, a);
    IndexOfIdFinds(rows, b);
  }

  /** A whitelist row, by the label of its node. */
  function WhitelistEdge(rows: seq<Row>): ((int, string)) -> Option<PublicEdge> {
    (w: (int, string)) =>
      match NameOfId(rows, w.0) case None => None case Some(x) => Some(PublicEdge(x, w.1))
  }

  /** A link row, by the labels of its nodes. */
  function LinkEdge(rows: seq<Row>): ((int, int)) -> Option<PublicEdge> {
    (l: (int, int)) =>
      match NameOfId(rows, l.0) case None => None case Some(x) =>
      match NameOfId(rows, l.1) case None => None case Some(y) => Some(PublicEdge(x, y))
  }

  method ListWhitelist(t: LocalTree) returns (edges: seq<PublicEdge>)
    requires Ordered(t.rows) && NamesDiffer(t.rows)
    ensures EdgesAscend(edges) && forall e :: e in edges <==> ExportsWhitelist(t, e)
  {
    var edgeOf := WhitelistEdge(t.rows);
    forall a, b | a in t.whitelist && b in t.whitelist && edgeOf(a).Some? && edgeOf(a) == edgeOf(b) ensures a == b {
      NameOfIdInjective(t.rows, a.0, b.0);
    }
    edges := Collect(t.whitelist, edgeOf);
    forall e ensures e in edges <==> ExportsWhitelist(t, e) {
      if e in edges {
        var a :| a in t.whitelist && edgeOf(a) == Some(e);
        NameOfIdIs(t.rows, a.0, e.source);
      }
      if ExportsWhitelist(t, e) {
        var i :| 0 <= i < |t.rows| && t.rows[i].name == e.source && (t.rows[i].id, e.target) in t.whitelist;
        NameOfIdIs(t.rows, t.rows[i].id, e.source);
        assert edgeOf((t.rows[i].id, e.target)) == Some(e);
      }
    }
  }

  method ListLinks(t: LocalTree) returns (edges: seq<PublicEdge>)
    requires Ordered(t.rows) && NamesDiffer(t.rows)
    ensures EdgesAscend(edges) && forall e :: e in edges <==> ExportsLink(t, e)
  {
    var edgeOf := LinkEdge(t.rows);
    forall a, b | a in t.links && b in t.links && edgeOf(a).Some? && edgeOf(a) == edgeOf(b) ensures a == b {
      NameOfIdInjective(t.rows, a.0, b.0);
      NameOfIdInjective(t.rows, a.1, b.1);
    }
    edges := Collect(t.links, edgeOf);
    forall e ensures e in edges <==> ExportsLink(t, e) {
      if e in edges {
        var a :| a in t.links && edgeOf(a) == Some(e);
        NameOfIdIs(t.rows, a.0, e.source);
        NameOfIdIs(t.rows, a.1, e.target);
      }
      if ExportsLink(t, e) {
        var i, j :| 0 <= i < |t.rows| && 0 <= j < |t.rows| && t.rows[i].name == e.source && t.rows[j].name == e.target
          && (t.rows[i].id, t.rows[j].id) in t.links;
        NameOfIdIs(t.rows, t.rows[i].id, e.source);
        NameOfIdIs(t.rows, t.rows[j].id, e.target);
        assert edgeOf((t.rows[i].id, t.rows[j].id)) == Some(e);
      }
    }
  }

  /** Leaves name hardware keys of the store. */
  predicate KeysKnown(rows: seq<Row>, keys: seq<HardwareKey>) {
    forall i :: 0 <= i < |rows| && rows[i].hardwareKey.Some? ==> 0 <= rows[i].hardwareKey.value < |keys|
  }

  /** `export_public_tree`; an unknown hardware key is a database error. */
  method ExportPublicTree(enc: Encoding, t: LocalTree, keys: seq<HardwareKey>) returns (r: Result<PublicTree>)
    requires Ordered(t.rows)
    ensures Load(StoreOf(t)).Err? ==> r == Err(Load(StoreOf(t)).error)
    ensures Load(StoreOf(t)).Ok? && !KeysKnown(t.rows, keys) ==> r == Err(Db)
    ensures Load(StoreOf(t)).Ok? && KeysKnown(t.rows, keys) ==> r.Ok? && IsExport(enc, t, keys, r.value)
  {
    var arena :- Load(StoreOf(t));
    var nodes: seq<PublicNode> := [];
    for i := 0 to |arena.nodes|
      invariant nodes == ExportNodes(enc, arena, keys)[..i]
      invariant forall k :: 0 <= k < i && t.rows[k].hardwareKey.Some? ==> 0 <= t.rows[k].hardwareKey.value < |keys|
    {
      var key := arena.nodes[i].hardwareKey;
      if key.Some? && !(0 <= key.value < |keys|) {
        return Err(Db);
      }
      nodes := nodes + [ExportNode(enc, arena, keys, i)];
    }
    var whitelist := ListWhitelist(t);
    var links := ListLinks(t);
    return Ok(PublicTree(t.name, t.generation, nodes, whitelist, links));
  }
}
