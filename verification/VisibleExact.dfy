/** What the descent of `add_descendants` misses, exactly: it does not go on below a label that an
earlier seed made visible without its descendants (`visible_from_maps` in `src/key_tree.rs`). */
module VisibleExact {
  import opened PublicTrees
  import opened Visibility

  /** One of the first k seeds lies at or below x, or beside it: x is visible before the descent
  from seed k, and that descent does not go on below it. */
  ghost predicate Stops(m: Parents, seeds: seq<string>, k: nat, x: string)
    requires k <= |seeds|
  {
    exists j :: 0 <= j < k && seeds[j] in m && (Reaches(m, seeds[j], x) || Sibling(m, seeds[j], x))
  }

  /** At most n steps up from y lies seed k, and no label strictly between stops the descent. */
  ghost predicate DescendsIn(m: Parents, seeds: seq<string>, k: nat, y: string, n: nat)
    requires k < |seeds|
    decreases n
  {
    && n > 0 && y in m && m[y].Some?
    && (m[y].value == seeds[k] || (!Stops(m, seeds, k, m[y].value) && DescendsIn(m, seeds, k, m[y].value, n - 1)))
  }

  ghost predicate Descends(m: Parents, seeds: seq<string>, k: nat, y: string)
    requires k < |seeds|
  {
    exists n: nat :: DescendsIn(m, seeds, k, y, n)
  }

  ghost predicate ShownBy(m: Parents, seeds: seq<string>, k: nat, y: string)
    requires k < |seeds|
  {
    seeds[k] in m && (Reaches(m, seeds[k], y) || Sibling(m, seeds[k], y) || Descends(m, seeds, k, y))
  }

  /** One of the first i seeds shows y: as an ancestor, as a sibling, or by a descent nothing stops. */
  ghost predicate Shown(m: Parents, seeds: seq<string>, i: nat, y: string)
    requires i <= |seeds|
  {
    exists k :: 0 <= k < i && ShownBy(m, seeds, k, y)
  }

  ghost predicate StepsAreShown(m: Parents, seeds: seq<string>, i: nat)
    requires i <= |seeds|
  {
    forall y :: y in SeedSteps(m, seeds, i) <==> Shown(m, seeds, i, y)
  }

  lemma {:induction false} DescendsReaches(m: Parents, seeds: seq<string>, k: nat, y: string, n: nat)
    requires k < |seeds| && DescendsIn(m, seeds, k, y, n)
    ensures Reaches(m, y, seeds[k])
    decreases n
  {
    var p := m[y].value;
    ReachesParent(m, y, p);
    if p != seeds[k] {
      DescendsReaches(m, seeds, k, p, n - 1);
      ReachesTwice(m, y, p, seeds[k]);
    }
  }

  /** What the descent from seed k enters, it reaches without being stopped. */
  lemma {:induction false} EnteredDescends(m: Parents, seeds: seq<string>, k: nat, before: set<string>, y: string, n: nat)
    requires k < |seeds| && EnteredIn(m, seeds[k], before, y, n)
    requires forall x :: Stops(m, seeds, k, x) ==> x in before
    ensures DescendsIn(m, seeds, k, y, n)
    decreases n
  {
    if m[y].value != seeds[k] {
      EnteredDescends(m, seeds, k, before, m[y].value, n - 1);
    }
  }

  /** A label that does not stop the descent from seed k and is shown earlier shows its children too. */
  lemma ShowsChild(m: Parents, seeds: seq<string>, k: nat, p: string, y: string)
    requires k < |seeds| && Child(m, p, y) && Shown(m, seeds, k, p) && !Stops(m, seeds, k, p)
    ensures Shown(m, seeds, k, y)
  {
    var j: nat :| j < k && ShownBy(m, seeds, j, p);
    var n: nat :| DescendsIn(m, seeds, j, p, n);
    assert DescendsIn(m, seeds, j, y, n + 1);
    assert ShownBy(m, seeds, j, y);
  }

  /** What the descent from seed k reaches without being stopped is visible after that seed. */
  lemma {:induction false} DescendsVisible(m: Parents, seeds: seq<string>, k: nat, y: string, n: nat)
    requires k < |seeds| && Acyclic(m) && StepsAreShown(m, seeds, k) && DescendsIn(m, seeds, k, y, n)
    ensures var lineage := WithLineage(m, seeds[k], SeedSteps(m, seeds, k));
      y in lineage || Entered(m, seeds[k], lineage, y)
    decreases n
  {
    var seed, before := seeds[k], SeedSteps(m, seeds, k);
    var lineage := WithLineage(m, seed, before);
    var p := m[y].value;
    if y !in lineage {
      if p != seed {
        DescendsVisible(m, seeds, k, p, n - 1);
        if p in lineage {
          DescendsReaches(m, seeds, k, p, n - 1);
          if p in before {
            ShowsChild(m, seeds, k, p, y);
          } else {
            ReachesAntisymmetric(m, p, seed);
          }
        }
      }
      ChildEntered(m, seed, lineage, p, y);
    }
  }

  lemma StepShown(m: Parents, seeds: seq<string>, k: nat, y: string)
    requires k < |seeds| && Acyclic(m) && StepsAreShown(m, seeds, k) && ShownBy(m, seeds, k, y)
    ensures y in SeedSteps(m, seeds, k + 1)
  {
    LineageInUniverse(m, [], seeds[k]);
    if Descends(m, seeds, k, y) {
      var n: nat :| DescendsIn(m, seeds, k, y, n);
      DescendsVisible(m, seeds, k, y, n);
    }
  }

  lemma ShownStep(m: Parents, seeds: seq<string>, k: nat, y: string)
    requires k < |seeds| && StepsAreShown(m, seeds, k) && y in SeedSteps(m, seeds, k + 1)
    ensures y in SeedSteps(m, seeds, k) || ShownBy(m, seeds, k, y)
  {
    var seed, before := seeds[k], SeedSteps(m, seeds, k);
    var lineage := WithLineage(m, seed, before);
    if y !in before && Entered(m, seed, lineage, y) {
      forall x | Stops(m, seeds, k, x) ensures x in lineage {
        var j: nat :| j < k && seeds[j] in m && (Reaches(m, seeds[j], x) || Sibling(m, seeds[j], x));
        assert ShownBy(m, seeds, j, x);
      }
      var n: nat :| EnteredIn(m, seed, lineage, y, n);
      EnteredDescends(m, seeds, k, lineage, y, n);
    }
  }

  /** The seeds make visible exactly the labels one of them shows. */
  lemma {:induction false} SeedsShowExactly(m: Parents, seeds: seq<string>, i: nat)
    requires i <= |seeds| && Acyclic(m)
    ensures StepsAreShown(m, seeds, i)
  {
    if i > 0 {
      var k := i - 1;
      SeedsShowExactly(m, seeds, k);
      forall y ensures y in SeedSteps(m, seeds, i) <==> Shown(m, seeds, i, y) {
        if y in SeedSteps(m, seeds, i) {
          ShownStep(m, seeds, k, y);
        }
        if Shown(m, seeds, i, y) {
          var j: nat :| j < i && ShownBy(m, seeds, j, y);
          if j == k {
            StepShown(m, seeds, k, y);
          } else {
            assert Shown(m, seeds, k, y);
          }
        }
      }
    }
  }

  /** Every descendant of a seed is shown by some seed. */
  ghost predicate AllShown(m: Parents, seeds: seq<string>) {
    forall k, y :: 0 <= k < |seeds| && seeds[k] in m && y in m && Reaches(m, y, seeds[k]) ==>
      Shown(m, seeds, |seeds|, y)
  }

  ghost predicate AlwaysClosed(m: Parents, seeds: seq<string>) {
    forall links, visible :: IsVisible(m, links, seeds, visible) ==> Closed(m, links, seeds, visible)
  }

  lemma ShownIsClosed(m: Parents, links: seq<PublicEdge>, seeds: seq<string>, visible: set<string>)
    requires Acyclic(m) && AllShown(m, seeds) && IsVisible(m, links, seeds, visible)
    ensures Closed(m, links, seeds, visible)
  {
    SeedsShowExactly(m, seeds, |seeds|);
    forall k, y | 0 <= k < |seeds| && seeds[k] in m && Brings(m, seeds[k], y) ensures y in visible {
      if !(y in m && Reaches(m, y, seeds[k])) {
        assert ShownBy(m, seeds, k, y);
      }
      assert Shown(m, seeds, |seeds|, y);
    }
  }

  /** For acyclic parents, the visible set holds all descendants of the seeds, and so is the least
  closed set, whatever the links, if and only if every descendant of a seed is shown by some seed:
  on the path down from one of them nothing strictly between lies above, at or beside an earlier seed. */
  lemma LeastClosedIff(m: Parents, seeds: seq<string>)
    requires Acyclic(m)
    ensures AlwaysClosed(m, seeds) <==> AllShown(m, seeds)
  {
    if AllShown(m, seeds) {
      forall links, visible | IsVisible(m, links, seeds, visible) ensures Closed(m, links, seeds, visible) {
        ShownIsClosed(m, links, seeds, visible);
      }
    }
    if AlwaysClosed(m, seeds) {
      var base := SeedSteps(m, seeds, |seeds|);
      assert IsVisible(m, [], seeds, base);
      SeedsShowExactly(m, seeds, |seeds|);
      forall k, y | 0 <= k < |seeds| && seeds[k] in m && y in m && Reaches(m, y, seeds[k])
        ensures Shown(m, seeds, |seeds|, y)
      {
        assert Brings(m, seeds[k], y);
      }
    }
  }
}
