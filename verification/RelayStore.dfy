/** The relay's documents: one public tree per label, replaced or merged into by pushes and
sliced by pulls (`src/relay/org_tree.rs`). Writing a document as JSON and reading it back is
taken to give the same document. */
module RelayTrees {
  import opened Errors
  import opened PublicTrees
  import opened OrgTree
  import opened TreeMerge
  import opened TreeSlices

  const U32_MAX: nat := 0xFFFF_FFFF
  const I64_MAX: nat := 0x7FFF_FFFF_FFFF_FFFF

  /** A row of the table: its generation column and its document. */
  datatype Doc = Doc(generation: nat, document: PublicTree)

  type Docs = map<string, Doc>

  function SaturatingNext(generation: nat): nat {
    if generation < I64_MAX then generation + 1 else I64_MAX
  }

  function Capped(generation: nat): nat {
    if generation <= U32_MAX then generation else U32_MAX
  }

  /** `persist_public_tree` on the table as a value. */
  function Persisted(docs: Docs, t: PublicTree): Docs {
    var generation := if t.name in docs then SaturatingNext(docs[t.name].generation) else 1;
    docs[t.name := Doc(generation, t.(generation := Capped(generation)))]
  }

  datatype Push = Replace(tree: PublicTree) | MergeIn(tree: PublicTree)

  /** The document a push would store. */
  function Pushed(docs: Docs, p: Push): PublicTree {
    if p.MergeIn? && p.tree.name in docs then Merged(docs[p.tree.name].document, p.tree) else p.tree
  }

  /** A push changes the table only if the tree and what it would store are valid. */
  ghost function After(docs: Docs, p: Push): Docs {
    if ValidTree(p.tree) && ValidTree(Pushed(docs, p)) then Persisted(docs, Pushed(docs, p)) else docs
  }

  ghost predicate ValidDoc(name: string, d: Doc) {
    ValidTree(d.document) && d.document.name == name && d.document.generation == Capped(d.generation) && d.generation >= 1
  }

  ghost predicate ValidDocs(docs: Docs) {
    forall name :: name in docs ==> ValidDoc(name, docs[name])
  }

  class RelayStore {
    var docs: Docs

    constructor ()
      ensures docs == map[]
    {
      docs := map[];
    }

    method Persist(t: PublicTree) returns (stored: PublicTree)
      modifies this
      ensures docs == Persisted(old(docs), t) && stored == docs[t.name].document
    {
      var generation := 1;
      if t.name in docs {
        generation := SaturatingNext(docs[t.name].generation);
      }
      stored := t.(generation := Capped(generation));
      docs := docs[t.name := Doc(generation, stored)];
    }

    method PutPublicTree(snapshot: PublicTree) returns (r: Result<PublicTree>)
      modifies this
      ensures docs == After(old(docs), Replace(snapshot))
      ensures match Verdict(snapshot)
        case Ok(_) => snapshot.name in docs && r == Ok(docs[snapshot.name].document)
        case Err(e) => r == Err(e)
    {
      var _ :- ValidatePublicTree(snapshot);
      var stored := Persist(snapshot);
      return Ok(stored);
    }

    method MergePublicTree(snapshot: PublicTree) returns (r: Result<PublicTree>)
      modifies this
      ensures docs == After(old(docs), MergeIn(snapshot))
      ensures r.Ok? <==> ValidTree(snapshot) && ValidTree(Pushed(old(docs), MergeIn(snapshot)))
      ensures r.Ok? ==> snapshot.name in docs && r.value == docs[snapshot.name].document
    {
      var _ :- ValidatePublicTree(snapshot);
      var merged := snapshot;
      if snapshot.name in docs {
        merged :- MergeIntoExisting(docs[snapshot.name].document, snapshot);
      }
      var stored := Persist(merged);
      return Ok(stored);
    }

    method GetPublicTree(name: string) returns (r: Result<PublicTree>)
      ensures r == if name in docs then Ok(docs[name].document) else Err(TreeNotFound)
    {
      return if name in docs then Ok(docs[name].document) else Err(TreeNotFound);
    }

    /** `context_for_fingerprint` */
    method ContextForFingerprint(name: string, fingerprint: string) returns (r: Result<PublicTree>)
      requires ValidDocs(docs)
      ensures name !in docs ==> r == Err(TreeNotFound)
      ensures name in docs && Seeds(docs[name].document.nodes, fingerprint) == [] ==> r == Err(NodeNotFound)
      ensures name in docs && Seeds(docs[name].document.nodes, fingerprint) != [] ==>
        r.Ok? && IsSlice(docs[name].document, fingerprint, r.value)
    {
      var full :- GetPublicTree(name);
      assert ValidDoc(name, docs[name]);
      var slice := SliceForFingerprint(full, fingerprint);
      return if slice.Some? then Ok(slice.value) else Err(NodeNotFound);
    }
  }

  // ----- over whole runs

  ghost function AfterAll(docs: Docs, pushes: seq<Push>): Docs
    decreases pushes
  {
    if pushes == [] then docs else AfterAll(After(docs, pushes[0]), pushes[1..])
  }

  lemma StoredValid(docs: Docs, p: Push)
    requires ValidDocs(docs)
    ensures ValidDocs(After(docs, p))
  {
    var t := Pushed(docs, p);
    if ValidTree(p.tree) && ValidTree(t) {
      var stored := After(docs, p)[t.name].document;
      var r: nat :| ValidWithRoot(t, r);
      assert stored.nodes == t.nodes && stored.whitelist == t.whitelist && stored.links == t.links;
      assert ValidWithRoot(stored, r);
    }
  }

  /** The relay stores valid documents only, each under its own label, whatever is pushed. */
  lemma {:induction false} RunStoresValid(docs: Docs, pushes: seq<Push>)
    requires ValidDocs(docs)
    ensures ValidDocs(AfterAll(docs, pushes))
    decreases pushes
  {
    if pushes != [] {
      StoredValid(docs, pushes[0]);
      RunStoresValid(After(docs, pushes[0]), pushes[1..]);
    }
  }

  /** A document of at least this generation that still has these labels. */
  ghost predicate Keeps(docs: Docs, name: string, generation: nat, names: set<string>) {
    name in docs && docs[name].generation >= generation && Names(docs[name].document.nodes) >= names
  }

  lemma PushKeeps(docs: Docs, p: Push, name: string, generation: nat, names: set<string>)
    requires Keeps(docs, name, generation, names) && generation <= I64_MAX && p.MergeIn?
    ensures Keeps(After(docs, p), name, generation, names)
  {
    if p.tree.name == name {
      MergeKeeps(docs[name].document, p.tree);
      MergedNames(Pushed(docs, p).nodes, docs[name].document.nodes, p.tree.nodes);
    }
  }

  /** However many trees are merged in, no stored label is lost and no generation falls. */
  lemma {:induction false} MergesLoseNothing(docs: Docs, pushes: seq<Push>, name: string, generation: nat, names: set<string>)
    requires Keeps(docs, name, generation, names) && generation <= I64_MAX
    requires forall i :: 0 <= i < |pushes| ==> pushes[i].MergeIn?
    ensures Keeps(AfterAll(docs, pushes), name, generation, names)
    decreases pushes
  {
    if pushes != [] {
      PushKeeps(docs, pushes[0], name, generation, names);
      MergesLoseNothing(After(docs, pushes[0]), pushes[1..], name, generation, names);
    }
  }

  /** A generation that counts up to the largest the column holds, and its document's, up to the largest that fits. */
  ghost predicate CountsOn(docs: Docs, d: Docs, name: string)
    requires name in d
  {
    && d[name].generation == (if name !in docs then 1
                              else if docs[name].generation < I64_MAX then docs[name].generation + 1 else I64_MAX)
    && d[name].document.generation == if d[name].generation <= U32_MAX then d[name].generation else U32_MAX
  }

  /** A push touches its own label only. A valid one of a label not yet stored, or one that replaces, stores just the
  nodes and edges it brings, one generation on; an invalid one changes nothing. */
  lemma PushExact(docs: Docs, p: Push)
    ensures forall name :: name != p.tree.name ==>
      (name in After(docs, p) <==> name in docs) && (name in docs ==> After(docs, p)[name] == docs[name])
    ensures !ValidTree(p.tree) ==> After(docs, p) == docs
    ensures ValidTree(p.tree) && (p.Replace? || p.tree.name !in docs) ==> var name, d := p.tree.name, After(docs, p);
      && name in d && CountsOn(docs, d, name) && d[name].document.name == name && d[name].document.nodes == p.tree.nodes
      && d[name].document.whitelist == p.tree.whitelist && d[name].document.links == p.tree.links
  {
  }

  ghost predicate SameContents(a: PublicTree, b: PublicTree) {
    && multiset(a.nodes) == multiset(b.nodes)
    && multiset(a.whitelist) == multiset(b.whitelist)
    && multiset(a.links) == multiset(b.links)
  }

  /** A valid merge into a stored document is stored one generation on. */
  lemma MergeStores(docs: Docs, t: PublicTree)
    requires t.name in docs && ValidTree(t) && ValidTree(Merged(docs[t.name].document, t))
    ensures var d := After(docs, MergeIn(t));
      && t.name in d && d[t.name].generation == SaturatingNext(docs[t.name].generation)
      && d[t.name].document == Merged(docs[t.name].document, t).(generation := d[t.name].document.generation)
  {
  }

  /** Pulling a slice and pushing it back unchanged stores the same nodes and edges one generation on. */
  lemma {:induction false} PullThenPush(docs: Docs, name: string, fingerprint: string, slice: PublicTree)
    requires ValidDocs(docs) && name in docs && Seeds(docs[name].document.nodes, fingerprint) != []
    requires IsSlice(docs[name].document, fingerprint, slice)
    ensures name in After(docs, MergeIn(slice))
    ensures After(docs, MergeIn(slice))[name].generation == SaturatingNext(docs[name].generation)
    ensures SameContents(After(docs, MergeIn(slice))[name].document, docs[name].document)
  {
    var full := docs[name].document;
    assert ValidDoc(name, docs[name]);
    SliceIsValid(full, fingerprint, slice);
    SliceMergesBack(full, fingerprint, slice);
    assert slice.name == name;
    MergeStores(docs, slice);
  }
}
