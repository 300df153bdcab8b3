/** Which labels a person sees (`visible_from_maps` in `src/key_tree.rs`): ancestors,
descendants and siblings of the seeds, then linked peers with their ancestors. */
module Visibility {
  import opened Errors
  import opened PublicTrees

  type Children = map<string, seq<string>>

  predicate Child(m: Parents, p: string, c: string) {
    c in m && m[c] == Some(p)
  }

  predicate ListsChild(children: Children, p: string, c: string) {
    p in children && c in children[p]
  }

  /** The child lists say the same as the parent map. */
  ghost predicate Mirrors(children: Children, m: Parents) {
    forall p, c :: ListsChild(children, p, c) <==> Child(m, p, c)
  }

  // ----- what must be visible

  predicate Sibling(m: Parents, x: string, y: string) {
    Parent(m, x).Some? && Child(m, Parent(m, x).value, y)
  }

  /** A seed brings itself, its ancestors, its descendants and its siblings. */
  ghost predicate Brings(m: Parents, seed: string, y: string) {
    Reaches(m, seed, y) || (y in m && Reaches(m, y, seed)) || Sibling(m, seed, y)
  }

  ghost predicate AllBrought(m: Parents, seed: string, s: set<string>) {
    forall y :: Brings(m, seed, y) ==> y in s
  }

  ghost predicate Lineage(m: Parents, x: string, s: set<string>) {
    forall y :: Reaches(m, x, y) ==> y in s
  }

  /** A visible end of a link brings the other end and its ancestors. */
  ghost predicate LinkClosed(m: Parents, l: PublicEdge, s: set<string>) {
    && (l.source in s ==> Lineage(m, l.target, s))
    && (l.target in s ==> Lineage(m, l.source, s))
  }

  /** A set that holds what every seed brings and what the links bring. */
  ghost predicate Closed(m: Parents, links: seq<PublicEdge>, seeds: seq<string>, s: set<string>) {
    (forall k :: 0 <= k < |seeds| && seeds[k] in m ==> AllBrought(m, seeds[k], s)) && LinksClosed(m, links, s)
  }

  /** No seed is listed after one of its proper descendants. */
  ghost predicate SeedsOrdered(m: Parents, seeds: seq<string>) {
    forall i, j :: 0 <= i < j < |seeds| && seeds[i] in m && seeds[j] in m && Reaches(m, seeds[i], seeds[j]) ==>
      seeds[i] == seeds[j]
  }

  // ----- climbing and descending

  lemma ClimbsOn(m: Parents, start: string, name: string)
    requires Reaches(m, start, name)
    ensures Parent(m, name).Some? ==> Reaches(m, start, Parent(m, name).value)
  {
    if Parent(m, name).Some? {
      ReachesParent(m, name, Parent(m, name).value);
      ReachesTwice(m, start, name, Parent(m, name).value);
    }
  }

  lemma KeysSeen(m: Parents, seen: set<string>, name: string)
    requires name !in seen
    ensures |m.Keys - (seen + {name})| == |m.Keys - seen| - if name in m then 1 else 0
  {
    if name in m {
      assert m.Keys - seen == m.Keys - (seen + {name}) + {name};
    } else {
      assert m.Keys - seen == m.Keys - (seen + {name});
    }
  }

  /** A walk from start has passed the labels of `seen` and is about to look at `cur`. */
  ghost predicate Walked(m: Parents, start: string, seen: set<string>, cur: Option<string>) {
    && (forall y :: y in seen ==> Reaches(m, start, y))
    && (cur.Some? ==> Reaches(m, start, cur.value))
    && (start in seen || cur == Some(start))
    && (forall x :: x in seen && Parent(m, x).Some? ==> Parent(m, x).value in seen || cur == Parent(m, x))
  }

  lemma WalkStep(m: Parents, start: string, seen: set<string>, name: string)
    requires Walked(m, start, seen, Some(name))
    ensures Walked(m, start, seen + {name}, Parent(m, name))
  {
    ClimbsOn(m, start, name);
  }

  lemma AddedToBoth(before: set<string>, seen: set<string>, name: string)
    requires name !in seen
    ensures before + (seen + {name}) == if name in before + seen then before + seen else before + seen + {name}
    ensures seen + {name} <= before <==> seen <= before && name in before + seen
  {
  }

  /** When nothing is left to look at, or only a label passed before, all ancestors have been passed. */
  lemma WalkDone(m: Parents, start: string, seen: set<string>, cur: Option<string>)
    requires Walked(m, start, seen, cur) && (cur.None? || cur.value in seen)
    ensures forall y :: y in seen <==> Reaches(m, start, y)
  {
    forall y | Reaches(m, start, y) ensures y in seen {
      ClosedUpReaches(m, seen, start, y);
    }
  }

  /** `walk_ancestors`: add `start` and its ancestors; a cycle of parents ends the walk. */
  method WalkAncestors(m: Parents, start: string, before: set<string>) returns (visible: set<string>, grew: bool)
    ensures before <= visible
    ensures forall y :: y in visible <==> y in before || Reaches(m, start, y)
    ensures grew <==> visible != before
  {
    var cur := Some(start);
    var seen: set<string> := {};
    visible, grew := before, false;
    ReachesSelf(m, start);
    while cur.Some?
      invariant visible == before + seen && (grew <==> !(seen <= before))
      invariant Walked(m, start, seen, cur)
      decreases |m.Keys - seen|, if cur.Some? then 1 else 0
    {
      var name := cur.value;
      if name in seen {
        break;
      }
      WalkStep(m, start, seen, name);
      KeysSeen(m, seen, name);
      AddedToBoth(before, seen, name);
      seen := seen + {name};
      if name !in visible {
        visible := visible + {name};
        grew := true;
      }
      cur := Parent(m, name);
    }
    WalkDone(m, start, seen, cur);
  }

  /** Everything that has been added, and `start`, has its children visible, except labels in `open`. */
  ghost predicate Expanded(m: Parents, start: string, added: set<string>, open: set<string>, visible: set<string>) {
    forall p, c :: Child(m, p, c) && (p == start || p in added) && p !in open ==> c in visible
  }

  /** `add_descendants` gets from `start` down to y in at most n steps, through labels not visible before. */
  ghost predicate EnteredIn(m: Parents, start: string, before: set<string>, y: string, n: nat)
    decreases n
  {
    && n > 0 && y in m && y !in before && m[y].Some?
    && (m[y].value == start || EnteredIn(m, start, before, m[y].value, n - 1))
  }

  ghost predicate Entered(m: Parents, start: string, before: set<string>, y: string) {
    exists n: nat :: EnteredIn(m, start, before, y, n)
  }

  lemma {:induction false} EnteredReaches(m: Parents, start: string, before: set<string>, y: string, n: nat)
    requires EnteredIn(m, start, before, y, n)
    ensures Reaches(m, y, start)
    decreases n
  {
    ReachesParent(m, y, m[y].value);
    if m[y].value != start {
      EnteredReaches(m, start, before, m[y].value, n - 1);
      ReachesTwice(m, y, m[y].value, start);
    }
  }

  lemma ChildEntered(m: Parents, start: string, before: set<string>, p: string, c: string)
    requires Child(m, p, c) && c !in before && (p == start || Entered(m, start, before, p))
    ensures Entered(m, start, before, c)
  {
    if p == start {
      assert EnteredIn(m, start, before, c, 1);
    } else {
      var n: nat :| EnteredIn(m, start, before, p, n);
      assert EnteredIn(m, start, before, c, n + 1);
    }
  }

  lemma {:induction false} EnteredVisible(m: Parents, start: string, before: set<string>, visible: set<string>,
                                          y: string, n: nat)
    requires before <= visible && Expanded(m, start, visible - before, {}, visible)
    requires EnteredIn(m, start, before, y, n)
    ensures y in visible
    decreases n
  {
    assert Child(m, m[y].value, y);
    if m[y].value != start {
      EnteredVisible(m, start, before, visible, m[y].value, n - 1);
      assert m[y].value !in before;
    }
  }

  ghost function Elements(s: seq<string>): set<string> {
    set x | x in s
  }

  lemma ElementsLast(s: seq<string>, x: string)
    ensures Elements(s + [x]) == Elements(s) + {x}
  {
  }

  /** The children of one label: those not yet visible become visible and go on the stack. */
  method PushChildren(m: Parents, children: Children, name: string, before: set<string>, rest: seq<string>)
    returns (visible: set<string>, stack: seq<string>)
    requires Mirrors(children, m)
    ensures before <= visible && forall y :: y in visible - before ==> Child(m, name, y)
    ensures forall c :: Child(m, name, c) ==> c in visible
    ensures Elements(stack) == Elements(rest) + (visible - before)
    ensures visible == before ==> stack == rest
  {
    visible, stack := before, rest;
    assert forall c :: Child(m, name, c) <==> ListsChild(children, name, c);
    if name !in children {
      return;
    }
    var list := children[name];
    for i := 0 to |list|
      invariant before <= visible && forall y :: y in visible - before ==> Child(m, name, y)
      invariant forall k :: 0 <= k < i ==> list[k] in visible
      invariant Elements(stack) == Elements(rest) + (visible - before)
      invariant visible == before ==> stack == rest
    {
      assert ListsChild(children, name, list[i]);
      if list[i] !in visible {
        ElementsLast(stack, list[i]);
        visible := visible + {list[i]};
        stack := stack + [list[i]];
      }
    }
    forall c | Child(m, name, c) ensures c in visible {
      assert ListsChild(children, name, c);
    }
  }

  lemma KeysLeft(m: Parents, was: set<string>, visible: set<string>)
    requires was <= visible && visible != was && visible - was <= m.Keys
    ensures |m.Keys - visible| < |m.Keys - was|
  {
    var y :| y in visible && y !in was;
    assert y in visible - was;
    assert m.Keys - was == (m.Keys - visible) + (visible - was);
  }

  /** What holds between two rounds of `add_descendants`. */
  ghost predicate Descending(m: Parents, start: string, before: set<string>, open: set<string>, visible: set<string>) {
    && before <= visible && (forall y :: y in visible - before ==> Entered(m, start, before, y))
    && open <= visible - before + {start}
    && Expanded(m, start, visible - before, open, visible)
  }

  lemma DescendOne(m: Parents, start: string, before: set<string>, open: set<string>, was: set<string>,
                   name: string, rest: set<string>, visible: set<string>)
    requires Descending(m, start, before, open, was) && open == rest + {name}
    requires was <= visible && (forall y :: y in visible - was ==> Child(m, name, y))
    requires forall c :: Child(m, name, c) ==> c in visible
    ensures Descending(m, start, before, rest + (visible - was), visible)
  {
    assert name in open;
    forall y | y in visible - before ensures Entered(m, start, before, y) {
      if y !in was {
        assert y in visible - was;
        ChildEntered(m, start, before, name, y);
      }
    }
  }

  /** `add_descendants`: a stack of labels whose children are still to be added; children that are
  visible already are not entered. */
  method AddDescendants(m: Parents, children: Children, start: string, before: set<string>) returns (visible: set<string>)
    requires Mirrors(children, m)
    ensures forall y :: y in visible <==> y in before || Entered(m, start, before, y)
  {
    visible := before;
    var stack := [start];
    while |stack| > 0
      invariant Descending(m, start, before, Elements(stack), visible)
      decreases |m.Keys - visible|, |stack|
    {
      var name := stack[|stack| - 1];
      var rest := stack[..|stack| - 1];
      assert stack == rest + [name];
      ElementsLast(rest, name);
      ghost var was, open := visible, Elements(stack);
      visible, stack := PushChildren(m, children, name, visible, rest);
      DescendOne(m, start, before, open, was, name, Elements(rest), visible);
      if visible != was {
        assert forall y :: y in visible - was ==> Child(m, name, y);
        KeysLeft(m, was, visible);
      }
    }
    assert Elements(stack) == {};
    forall y | Entered(m, start, before, y) ensures y in visible {
      var n: nat :| EnteredIn(m, start, before, y, n);
      EnteredVisible(m, start, before, visible, y, n);
    }
  }

  // ----- the specification

  ghost function Universe(m: Parents, links: seq<PublicEdge>): set<string> {
    m.Keys + (set x | x in m && m[x].Some? :: m[x].value)
      + (set i | 0 <= i < |links| :: links[i].source) + (set i | 0 <= i < |links| :: links[i].target)
  }

  lemma LineageInUniverse(m: Parents, links: seq<PublicEdge>, x: string)
    requires x in Universe(m, links)
    ensures forall y :: Reaches(m, x, y) ==> y in Universe(m, links)
  {
    var u := Universe(m, links);
    assert ClosedUp(m, u);
    forall y | Reaches(m, x, y) ensures y in u {
      ClosedUpReaches(m, u, x, y);
    }
  }

  ghost function WithLineage(m: Parents, seed: string, before: set<string>): set<string> {
    before + set y | y in Universe(m, []) && Reaches(m, seed, y)
  }

  /** What one seed adds: its lineage, what the descent from it enters, and its siblings. */
  ghost function SeedStep(m: Parents, seed: string, before: set<string>): set<string> {
    if seed !in m then before
    else
      var lineage := WithLineage(m, seed, before);
      lineage + (set y | y in m && Entered(m, seed, lineage, y)) + (set y | y in m && Sibling(m, seed, y))
  }

  /** What the first i seeds add. */
  ghost function SeedSteps(m: Parents, seeds: seq<string>, i: nat): set<string>
    requires i <= |seeds|
  {
    if i == 0 then {} else SeedStep(m, seeds[i - 1], SeedSteps(m, seeds, i - 1))
  }

  ghost predicate LinksClosed(m: Parents, links: seq<PublicEdge>, s: set<string>) {
    forall l :: l in links ==> LinkClosed(m, l, s)
  }

  ghost predicate LeastAbove(m: Parents, links: seq<PublicEdge>, base: set<string>, visible: set<string>) {
    forall s: set<string> :: base <= s && LinksClosed(m, links, s) ==> visible <= s
  }

  /** What is visible: the least set that is closed under links and holds what the seeds add. */
  ghost predicate IsVisible(m: Parents, links: seq<PublicEdge>, seeds: seq<string>, visible: set<string>) {
    && SeedSteps(m, seeds, |seeds|) <= visible
    && LinksClosed(m, links, visible)
    && LeastAbove(m, links, SeedSteps(m, seeds, |seeds|), visible)
  }

  // ----- the loops

  /** The siblings of a seed, by its parent's child list. */
  method AddSiblings(m: Parents, children: Children, seed: string, before: set<string>) returns (visible: set<string>)
    requires Mirrors(children, m)
    ensures forall y :: y in visible <==> y in before || Sibling(m, seed, y)
  {
    visible := before;
    if Parent(m, seed).None? {
      return;
    }
    var parent := Parent(m, seed).value;
    if parent in children {
      var siblings := children[parent];
      for i := 0 to |siblings|
        invariant forall y :: y in visible <==> y in before || exists k :: 0 <= k < i && siblings[k] == y
      {
        visible := visible + {siblings[i]};
      }
      assert forall y :: y in siblings <==> exists k :: 0 <= k < |siblings| && siblings[k] == y;
    }
    forall y ensures Sibling(m, seed, y) <==> parent in children && y in children[parent] {
      assert ListsChild(children, parent, y) <==> Child(m, parent, y);
    }
  }

  /** One round of the seed loop. */
  method AddSeed(m: Parents, children: Children, seed: string, before: set<string>) returns (visible: set<string>)
    requires Mirrors(children, m)
    ensures visible == SeedStep(m, seed, before)
  {
    if seed !in m {
      return before;
    }
    var lineage, _ := WalkAncestors(m, seed, before);
    LineageInUniverse(m, [], seed);
    assert lineage == WithLineage(m, seed, before);
    var below := AddDescendants(m, children, seed, lineage);
    visible := AddSiblings(m, children, seed, below);
    EnteredInParents(m, seed, lineage);
  }

  lemma EnteredInParents(m: Parents, start: string, before: set<string>)
    ensures forall y :: Entered(m, start, before, y) ==> y in m
  {
    forall y | Entered(m, start, before, y) ensures y in m {
      var n: nat :| EnteredIn(m, start, before, y, n);
    }
  }

  lemma WalkKeepsClosedUp(m: Parents, start: string, before: set<string>, visible: set<string>)
    requires ClosedUp(m, before) && forall y :: y in visible <==> y in before || Reaches(m, start, y)
    ensures ClosedUp(m, visible)
  {
    forall x | x in visible && Parent(m, x).Some? ensures Parent(m, x).value in visible {
      if x !in before {
        ReachesParent(m, x, Parent(m, x).value);
        ReachesTwice(m, start, x, Parent(m, x).value);
      }
    }
  }

  /** One pass over the links: a link with one visible end brings the other end and its ancestors. */
  method FollowLinks(m: Parents, links: seq<PublicEdge>, ghost base: set<string>, before: set<string>)
    returns (visible: set<string>, grew: bool)
    requires ClosedUp(m, before) && LeastAbove(m, links, base, before)
    ensures before <= visible && ClosedUp(m, visible) && visible <= before + Universe(m, links)
    ensures LeastAbove(m, links, base, visible)
    ensures grew <==> visible != before
    ensures !grew ==> forall l :: l in links ==> (l.source in visible <==> l.target in visible)
  {
    visible, grew := before, false;
    for i := 0 to |links|
      invariant before <= visible && ClosedUp(m, visible) && visible <= before + Universe(m, links)
      invariant LeastAbove(m, links, base, visible)
      invariant grew <==> visible != before
      invariant !grew ==> forall k :: 0 <= k < i ==> (links[k].source in visible <==> links[k].target in visible)
    {
      var aVis := links[i].source in visible;
      var bVis := links[i].target in visible;
      if aVis == bVis {
        continue;
      }
      var incoming := if aVis then links[i].target else links[i].source;
      ghost var was := visible;
      var more: bool;
      visible, more := WalkAncestors(m, incoming, visible);
      ReachesSelf(m, incoming);
      WalkKeepsClosedUp(m, incoming, was, visible);
      LineageInUniverse(m, links, incoming);
      forall s | base <= s && LinksClosed(m, links, s) ensures visible <= s {
        assert links[i] in links && LinkClosed(m, links[i], s);
      }
      if more {
        grew := true;
      }
    }
  }

  lemma BalancedIsLinkClosed(m: Parents, l: PublicEdge, visible: set<string>)
    requires ClosedUp(m, visible) && (l.source in visible <==> l.target in visible)
    ensures LinkClosed(m, l, visible)
  {
    if l.source in visible {
      forall y | Reaches(m, l.target, y) || Reaches(m, l.source, y) ensures y in visible {
        ClosedUpReaches(m, visible, if Reaches(m, l.target, y) then l.target else l.source, y);
      }
    }
  }

  /** Passes over the links until nothing grows. */
  method CloseUnderLinks(m: Parents, links: seq<PublicEdge>, start: set<string>) returns (visible: set<string>)
    requires ClosedUp(m, start)
    ensures start <= visible && LinksClosed(m, links, visible) && LeastAbove(m, links, start, visible)
  {
    visible := start;
    ghost var bound := visible + Universe(m, links);
    var grew := true;
    while grew
      invariant start <= visible <= bound
      invariant ClosedUp(m, visible) && LeastAbove(m, links, start, visible)
      invariant !grew ==> forall l :: l in links ==> (l.source in visible <==> l.target in visible)
      decreases |bound - visible|, if grew then 1 else 0
    {
      ghost var was := visible;
      visible, grew := FollowLinks(m, links, start, visible);
      if visible != was {
        assert bound - was == (bound - visible) + (visible - was);
        var y :| y in visible && y !in was;
        assert y in visible - was;
      }
    }
    forall l | l in links ensures LinkClosed(m, l, visible) {
      BalancedIsLinkClosed(m, l, visible);
    }
  }

  /** `visible_from_maps` */
  method VisibleFromMaps(m: Parents, children: Children, links: seq<PublicEdge>, seeds: seq<string>)
    returns (visible: set<string>)
    requires Mirrors(children, m)
    ensures IsVisible(m, links, seeds, visible)
  {
    visible := {};
    for i := 0 to |seeds|
      invariant visible == SeedSteps(m, seeds, i)
    {
      visible := AddSeed(m, children, seeds[i], visible);
    }
    SeedStepsClosedUp(m, seeds, |seeds|);
    visible := CloseUnderLinks(m, links, visible);
  }

  // ----- what is visible, for all inputs

  lemma {:induction false} EnteredParent(m: Parents, start: string, before: set<string>, y: string, n: nat)
    requires EnteredIn(m, start, before, y, n)
    ensures m[y].value == start || Entered(m, start, before, m[y].value)
  {
  }

  lemma SeedStepClosedUp(m: Parents, seed: string, before: set<string>)
    requires ClosedUp(m, before)
    ensures before <= SeedStep(m, seed, before) && ClosedUp(m, SeedStep(m, seed, before))
    ensures seed in m ==> seed in SeedStep(m, seed, before)
  {
    if seed in m {
      var lineage := WithLineage(m, seed, before);
      LineageInUniverse(m, [], seed);
      WalkKeepsClosedUp(m, seed, before, lineage);
      ReachesSelf(m, seed);
      EnteredInParents(m, seed, lineage);
      var after := SeedStep(m, seed, before);
      forall x | x in after && Parent(m, x).Some? ensures Parent(m, x).value in after {
        if Entered(m, seed, lineage, x) {
          var n: nat :| EnteredIn(m, seed, lineage, x, n);
          EnteredParent(m, seed, lineage, x, n);
        }
      }
    }
  }

  lemma {:induction false} SeedStepsClosedUp(m: Parents, seeds: seq<string>, i: nat)
    requires i <= |seeds|
    ensures ClosedUp(m, SeedSteps(m, seeds, i))
    ensures forall k :: 0 <= k < i && seeds[k] in m ==> seeds[k] in SeedSteps(m, seeds, i)
  {
    if i > 0 {
      SeedStepsClosedUp(m, seeds, i - 1);
      SeedStepClosedUp(m, seeds[i - 1], SeedSteps(m, seeds, i - 1));
    }
  }

  lemma {:induction false} SeedStepsBrought(m: Parents, seeds: seq<string>, i: nat, y: string)
    requires i <= |seeds| && y in SeedSteps(m, seeds, i)
    ensures BroughtBySome(m, seeds, i, y)
  {
    if i > 0 {
      var before := SeedSteps(m, seeds, i - 1);
      var seed := seeds[i - 1];
      if y in before {
        SeedStepsBrought(m, seeds, i - 1, y);
      } else if Entered(m, seed, WithLineage(m, seed, before), y) {
        var n: nat :| EnteredIn(m, seed, WithLineage(m, seed, before), y, n);
        EnteredReaches(m, seed, WithLineage(m, seed, before), y, n);
      }
    }
  }

  /** One of the first i seeds brings y. */
  ghost predicate BroughtBySome(m: Parents, seeds: seq<string>, i: nat, y: string)
    requires i <= |seeds|
  {
    exists k :: 0 <= k < i && seeds[k] in m && Brings(m, seeds[k], y)
  }

  /** The ancestors of whatever is visible are visible. */
  lemma VisibleClosedUp(m: Parents, links: seq<PublicEdge>, seeds: seq<string>, visible: set<string>)
    requires IsVisible(m, links, seeds, visible)
    ensures ClosedUp(m, visible)
    ensures forall k :: 0 <= k < |seeds| && seeds[k] in m ==> seeds[k] in visible
  {
    var base := SeedSteps(m, seeds, |seeds|);
    SeedStepsClosedUp(m, seeds, |seeds|);
    // the labels whose parents are visible too
    var good := set x | x in visible && Lineage(m, x, visible);
    forall x | x in base ensures x in good {
      forall y | Reaches(m, x, y) ensures y in visible {
        ClosedUpReaches(m, base, x, y);
      }
    }
    forall l | l in links ensures LinkClosed(m, l, good) {
      assert LinkClosed(m, l, visible);
      GoodLineage(m, l.source, visible);
      GoodLineage(m, l.target, visible);
    }
    assert base <= good && LinksClosed(m, links, good);
    forall x | x in visible && Parent(m, x).Some? ensures Parent(m, x).value in visible {
      assert x in good;
      ReachesParent(m, x, Parent(m, x).value);
    }
  }

  lemma GoodLineage(m: Parents, x: string, visible: set<string>)
    ensures Lineage(m, x, visible) ==> Lineage(m, x, set y | y in visible && Lineage(m, y, visible))
  {
    if Lineage(m, x, visible) {
      forall y | Reaches(m, x, y) ensures y in visible && Lineage(m, y, visible) {
        forall z | Reaches(m, y, z) ensures z in visible {
          ReachesTwice(m, x, y, z);
        }
      }
    }
  }

  // ----- when all descendants are visible

  /** A visible proper descendant of the seed has all its own descendants visible. */
  ghost predicate Settled(m: Parents, seed: string, s: set<string>) {
    forall c, d :: c in s && c != seed && Reaches(m, c, seed) && d in m && Reaches(m, d, c) ==> d in s
  }

  ghost predicate AllBelowVisible(m: Parents, seed: string, s: set<string>) {
    forall d :: d in m && Reaches(m, d, seed) ==> d in s
  }

  lemma {:induction false} DescendantEntered(m: Parents, seed: string, before: set<string>, d: string, n: nat)
    requires seed in before && Settled(m, seed, before)
    requires d in m && Up(m, d, n) == Some(seed)
    ensures d in before || Entered(m, seed, before, d)
    decreases n
  {
    if n > 0 && d !in before {
      var p := Parent(m, d).value;
      if p != seed {
        assert Up(m, p, n - 1) == Some(seed) && n > 1;
        DescendantEntered(m, seed, before, p, n - 1);
        if p in before {
          assert Reaches(m, p, seed);
          ReachesParent(m, d, p);
        }
      }
      ChildEntered(m, seed, before, p, d);
    }
  }

  lemma ProperAncestor(m: Parents, c: string, seed: string)
    requires Reaches(m, c, seed) && c != seed
    ensures Parent(m, c).Some? && Reaches(m, Parent(m, c).value, seed)
  {
    var n: nat :| Up(m, c, n) == Some(seed);
    assert Up(m, Parent(m, c).value, n - 1) == Some(seed);
  }

  lemma NoParentLoop(m: Parents, x: string)
    requires Acyclic(m)
    ensures Parent(m, x) != Some(x)
  {
    var rank :| Ranked(m, rank);
  }

  /** A label an earlier seed brought, below this seed, has all its descendants visible. */
  lemma SettledAt(m: Parents, earlier: string, seed: string, s: set<string>, c: string, d: string)
    requires Acyclic(m) && Brings(m, earlier, c) && AllBelowVisible(m, earlier, s)
    requires Reaches(m, earlier, seed) ==> earlier == seed
    requires c != seed && Reaches(m, c, seed) && d in m && Reaches(m, d, c)
    ensures d in s
  {
    if Reaches(m, earlier, c) {
      ReachesTwice(m, earlier, c, seed);
      ReachesAntisymmetric(m, seed, c);
    } else if c in m && Reaches(m, c, earlier) {
      ReachesTwice(m, d, c, earlier);
    } else {
      var p := Parent(m, earlier).value;
      ProperAncestor(m, c, seed);
      ReachesParent(m, earlier, p);
      ReachesTwice(m, earlier, p, seed);
      ReachesAntisymmetric(m, p, seed);
      NoParentLoop(m, earlier);
    }
  }

  lemma SeedsSettle(m: Parents, seeds: seq<string>, i: nat, s: set<string>)
    requires i < |seeds| && seeds[i] in m && Acyclic(m) && SeedsOrdered(m, seeds)
    requires forall y :: y in s ==> BroughtBySome(m, seeds, i, y)
    requires forall k :: 0 <= k < i && seeds[k] in m ==> AllBelowVisible(m, seeds[k], s)
    ensures Settled(m, seeds[i], WithLineage(m, seeds[i], s))
  {
    var seed := seeds[i];
    var lineage := WithLineage(m, seed, s);
    forall c, d | c in lineage && c != seed && Reaches(m, c, seed) && d in m && Reaches(m, d, c) ensures d in lineage {
      if Reaches(m, seed, c) {
        ReachesAntisymmetric(m, seed, c);
      } else {
        assert BroughtBySome(m, seeds, i, c);
        var k :| 0 <= k < i && seeds[k] in m && Brings(m, seeds[k], c);
        SettledAt(m, seeds[k], seed, s, c, d);
      }
    }
  }

  lemma {:induction false} DescendantsVisible(m: Parents, seeds: seq<string>, i: nat)
    requires i <= |seeds| && Acyclic(m) && SeedsOrdered(m, seeds)
    ensures forall k :: 0 <= k < i && seeds[k] in m ==> AllBelowVisible(m, seeds[k], SeedSteps(m, seeds, i))
  {
    if i > 0 {
      var before, seed := SeedSteps(m, seeds, i - 1), seeds[i - 1];
      DescendantsVisible(m, seeds, i - 1);
      if seed in m {
        forall y | y in before ensures BroughtBySome(m, seeds, i - 1, y) {
          SeedStepsBrought(m, seeds, i - 1, y);
        }
        SeedsSettle(m, seeds, i - 1, before);
        ReachesSelf(m, seed);
        forall d | d in m && Reaches(m, d, seed) ensures d in SeedSteps(m, seeds, i) {
          var n: nat :| Up(m, d, n) == Some(seed);
          DescendantEntered(m, seed, WithLineage(m, seed, before), d, n);
        }
      }
      assert before <= SeedSteps(m, seeds, i);
    }
  }

  lemma {:induction false} SiblingsVisible(m: Parents, seeds: seq<string>, i: nat, k: nat, y: string)
    requires k < i <= |seeds| && seeds[k] in m && Sibling(m, seeds[k], y)
    ensures y in SeedSteps(m, seeds, i)
  {
    if k < i - 1 {
      SiblingsVisible(m, seeds, i - 1, k, y);
    }
  }

  /** For acyclic parents and seeds none of which is listed after one of its proper descendants, the
  visible set is the least that holds every seed's ancestors, descendants and siblings and in which
  a linked peer brings itself and its ancestors. */
  lemma VisibleIsLeastClosed(m: Parents, links: seq<PublicEdge>, seeds: seq<string>, visible: set<string>)
    requires IsVisible(m, links, seeds, visible) && Acyclic(m) && SeedsOrdered(m, seeds)
    ensures Closed(m, links, seeds, visible)
    ensures forall s :: Closed(m, links, seeds, s) ==> visible <= s
  {
    VisibleWithinClosed(m, links, seeds, visible);
    var base := SeedSteps(m, seeds, |seeds|);
    SeedStepsClosedUp(m, seeds, |seeds|);
    DescendantsVisible(m, seeds, |seeds|);
    forall k, y | 0 <= k < |seeds| && seeds[k] in m && Brings(m, seeds[k], y) ensures y in visible {
      if Reaches(m, seeds[k], y) {
        ClosedUpReaches(m, base, seeds[k], y);
      } else if y in m && Reaches(m, y, seeds[k]) {
        assert AllBelowVisible(m, seeds[k], base);
      } else {
        SiblingsVisible(m, seeds, |seeds|, k, y);
      }
    }
  }

  /** Whatever the parents and the order of the seeds, nothing more than that is visible. */
  lemma VisibleWithinClosed(m: Parents, links: seq<PublicEdge>, seeds: seq<string>, visible: set<string>)
    requires IsVisible(m, links, seeds, visible)
    ensures forall s :: Closed(m, links, seeds, s) ==> visible <= s
  {
    var base := SeedSteps(m, seeds, |seeds|);
    forall s | Closed(m, links, seeds, s) ensures visible <= s {
      forall y | y in base ensures y in s {
        SeedStepsBrought(m, seeds, |seeds|, y);
        var k :| 0 <= k < |seeds| && seeds[k] in m && Brings(m, seeds[k], y);
        assert AllBrought(m, seeds[k], s);
      }
    }
  }

  // ----- seeds in the wrong order

  /** A chain r, a, b with b's children c and d, and e below d. */
  function Chain(): Parents {
    map["r" := None, "a" := Some("r"), "b" := Some("a"), "c" := Some("b"), "d" := Some("b"), "e" := Some("d")]
  }

  lemma ChainIsAcyclic()
    ensures Acyclic(Chain())
  {
    var rank := (x: string) =>
      if x == "r" then 0 else if x == "a" then 1 else if x == "b" then 2 else if x == "e" then 4 else 3;
    assert Ranked(Chain(), rank);
  }

  lemma ChainSteps()
    ensures SeedSteps(Chain(), ["c", "a"], 2) <= {"r", "a", "b", "c", "d"}
  {
    var m, seeds, shown := Chain(), ["c", "a"], {"r", "a", "b", "c", "d"};
    var one := SeedSteps(m, seeds, 1);
    assert SeedSteps(m, seeds, 0) == {};
    forall y | y in SeedStep(m, "c", {}) ensures y in shown {
      if Reaches(m, "c", y) {
        ClosedUpReaches(m, shown, "c", y);
      } else if Entered(m, "c", WithLineage(m, "c", {}), y) {
        var n: nat :| EnteredIn(m, "c", WithLineage(m, "c", {}), y, n);
        EnteredReaches(m, "c", WithLineage(m, "c", {}), y, n);
        ClosedUpReaches(m, m.Keys - {"c"}, y, "c");
      }
    }
    assert one <= shown;
    ReachesParent(m, "c", "b");
    assert "b" in one && "d" in one by {
      assert Sibling(m, "c", "d");
    }
    var lineage := WithLineage(m, "a", one);
    forall y | y in SeedStep(m, "a", one) ensures y in shown {
      if y !in one {
        if Reaches(m, "a", y) {
          ClosedUpReaches(m, shown, "a", y);
        } else if Entered(m, "a", lineage, y) {
          var n: nat :| EnteredIn(m, "a", lineage, y, n);
          assert y == "e" ==> !EnteredIn(m, "a", lineage, "d", n - 1);
        }
      }
    }
  }

  /** A seed listed after one of its proper descendants may miss a descendant: with c before its
  ancestor a, the descent from a stops at b, which is visible already, and e stays hidden. */
  lemma LateAncestorMissesDescendant(visible: set<string>)
    requires IsVisible(Chain(), [], ["c", "a"], visible)
    ensures Acyclic(Chain()) && Brings(Chain(), "a", "e") && "e" !in visible
  {
    var m := Chain();
    ChainIsAcyclic();
    ChainSteps();
    assert LinksClosed(m, [], SeedSteps(m, ["c", "a"], 2));
    assert Up(m, "b", 1) == Up(m, "a", 0);
    assert Up(m, "d", 2) == Up(m, "b", 1);
    assert Up(m, "e", 3) == Up(m, "d", 2) == Some("a");
  }

  lemma {:induction false} LastStep(m: Parents, x: string, y: string, n: nat) returns (c: string)
    requires n > 0 && Up(m, x, n) == Some(y)
    ensures Child(m, y, c)
    decreases n
  {
    if n == 1 {
      c := x;
    } else {
      c := LastStep(m, Parent(m, x).value, y, n - 1);
    }
  }

  /** Seeds without children, such as the leaves of a key tree, are in order however they are listed. */
  lemma ChildlessSeedsOrdered(m: Parents, seeds: seq<string>)
    requires forall k, c :: 0 <= k < |seeds| ==> !Child(m, seeds[k], c)
    ensures SeedsOrdered(m, seeds)
  {
    forall i, j | 0 <= i < j < |seeds| && seeds[i] in m && seeds[j] in m && Reaches(m, seeds[i], seeds[j])
      ensures seeds[i] == seeds[j]
    {
      var n: nat :| Up(m, seeds[i], n) == Some(seeds[j]);
      if n > 0 {
        var c := LastStep(m, seeds[i], seeds[j], n);
      }
    }
  }
}
