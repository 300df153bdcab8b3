/** The order in which a snapshot's nodes are applied, and when the pending loop gets stuck. */
module ApplySchedule {
  import opened PublicTrees
  import opened TreeMerge
  import opened ApplyTree

  /** Every node comes after its parent, unless the parent is ready or not in the snapshot. */
  ghost predicate ParentsFirst(order: seq<PublicNode>, ready: set<string>, remaining: set<string>)
    decreases order
  {
    order == [] || (!Waits(order[0], ready, remaining) && ParentsFirst(order[1..], ready + {order[0].name}, remaining))
  }

  lemma NamesFirst(nodes: seq<PublicNode>)
    requires nodes != []
    ensures Names(nodes) == {nodes[0].name} + Names(nodes[1..])
  {
    assert nodes == [nodes[0]] + nodes[1..];
    NamesBoth([nodes[0]], nodes[1..]);
    assert Names([nodes[0]]) == {nodes[0].name};
  }

  lemma NamesBoth(a: seq<PublicNode>, b: seq<PublicNode>)
    ensures Names(a + b) == Names(a) + Names(b)
  {
    forall x | x in Names(a) ensures x in Names(a + b) {
      var n := NameOf(a, x);
      assert n in a + b;
      NameIn(a + b, n);
    }
    forall x | x in Names(b) ensures x in Names(a + b) {
      var n := NameOf(b, x);
      assert n in a + b;
      NameIn(a + b, n);
    }
    forall x | x in Names(a + b) ensures x in Names(a) + Names(b) {
      var n := NameOf(a + b, x);
      NameIn(if n in a then a else b, n);
    }
  }

  lemma {:induction false} ParentsFirstBoth(a: seq<PublicNode>, b: seq<PublicNode>, ready: set<string>, remaining: set<string>)
    requires ParentsFirst(a, ready, remaining) && ParentsFirst(b, ready + Names(a), remaining)
    ensures ParentsFirst(a + b, ready, remaining)
    decreases a
  {
    if a == [] {
      assert a + b == b && ready + Names(a) == ready;
    } else {
      NamesFirst(a);
      assert (a + b)[1..] == a[1..] + b;
      assert ready + Names(a) == (ready + {a[0].name}) + Names(a[1..]);
      ParentsFirstBoth(a[1..], b, ready + {a[0].name}, remaining);
    }
  }

  lemma {:induction false} SiftFacts(pending: seq<PublicNode>, ready: set<string>, remaining: set<string>)
    ensures var p := Sift(pending, ready, remaining);
      && p.ready == ready + Names(p.applied)
      && ParentsFirst(p.applied, ready, remaining)
      && multiset(p.applied) + multiset(p.next) == multiset(pending)
    decreases pending
  {
    if pending != [] {
      var n, rest := pending[0], pending[1..];
      assert pending == [n] + rest;
      if Waits(n, ready, remaining) {
        SiftFacts(rest, ready, remaining);
      } else {
        SiftFacts(rest, ready + {n.name}, remaining);
        var p := Sift(pending, ready, remaining);
        NamesFirst(p.applied);
        assert p.applied[1..] == Sift(rest, ready + {n.name}, remaining).applied;
      }
    }
  }

  /** A pass that applies nothing found every pending node waiting. */
  lemma {:induction false} SiftStuck(pending: seq<PublicNode>, ready: set<string>, remaining: set<string>)
    requires |Sift(pending, ready, remaining).next| == |pending|
    ensures forall i :: 0 <= i < |pending| ==> Waits(pending[i], ready, remaining)
    decreases pending
  {
    if pending != [] {
      SiftStuck(pending[1..], ready, remaining);
      assert forall i :: 0 < i < |pending| ==> pending[i] == pending[1..][i - 1];
    }
  }

  lemma {:induction false} PassesFacts(pending: seq<PublicNode>, ready: set<string>, remaining: set<string>)
    ensures var s := Passes(pending, ready, remaining);
      && ParentsFirst(s.order, ready, remaining)
      && (!s.stuck ==> multiset(s.order) == multiset(pending))
    decreases |pending|
  {
    if pending != [] {
      var p := Sift(pending, ready, remaining);
      SiftFacts(pending, ready, remaining);
      if |p.next| < |pending| {
        PassesFacts(p.next, p.ready, remaining);
        ParentsFirstBoth(p.applied, Passes(p.next, p.ready, remaining).order, ready, remaining);
      }
    }
  }

  // ----- stuck exactly on a cycle

  lemma SameNames(a: seq<PublicNode>, b: seq<PublicNode>, all: seq<PublicNode>)
    requires multiset(a) + multiset(b) == multiset(all)
    ensures Names(all) == Names(a) + Names(b)
    ensures forall n :: n in all <==> n in a || n in b
  {
    forall n ensures n in all <==> n in a || n in b {
      assert n in all <==> n in multiset(all);
      assert n in a <==> n in multiset(a);
      assert n in b <==> n in multiset(b);
    }
    assert forall n :: n in all <==> n in a + b;
    NamesBoth(a, b);
    forall x ensures x in Names(all) <==> x in Names(a + b) {
      if x in Names(all) {
        var n := NameOf(all, x);
        NameIn(a + b, n);
      }
      if x in Names(a + b) {
        var n := NameOf(a + b, x);
        NameIn(all, n);
      }
    }
  }

  /** A node of least rank. */
  lemma {:induction false} LeastNode(pending: seq<PublicNode>, rank: string -> nat) returns (k: nat)
    requires pending != []
    ensures k < |pending| && forall i :: 0 <= i < |pending| ==> rank(pending[k].name) <= rank(pending[i].name)
  {
    k := 0;
    if |pending| > 1 {
      var j := LeastNode(pending[1..], rank);
      assert forall i :: 0 < i < |pending| ==> pending[i] == pending[1..][i - 1];
      if rank(pending[j + 1].name) < rank(pending[0].name) {
        k := j + 1;
      }
    }
  }

  ghost predicate ParentsAre(pending: seq<PublicNode>, m: Parents) {
    forall i :: 0 <= i < |pending| ==> pending[i].name in m && m[pending[i].name] == pending[i].parent
  }

  /** The parent of a node of least rank is not pending. */
  lemma LeastHasNoPendingParent(pending: seq<PublicNode>, m: Parents, rank: string -> nat) returns (k: nat)
    requires pending != [] && ParentsAre(pending, m) && Ranked(m, rank)
    ensures k < |pending| && (pending[k].parent.Some? ==> pending[k].parent.value !in Names(pending))
  {
    k := LeastNode(pending, rank);
    if pending[k].parent.Some? {
      assert rank(pending[k].parent.value) < rank(pending[k].name);
      assert forall i :: 0 <= i < |pending| ==> pending[i].name != pending[k].parent.value;
    }
  }

  lemma {:induction false} RankedPassMoves(pending: seq<PublicNode>, ready: set<string>, m: Parents, rank: string -> nat)
    requires pending != [] && ParentsAre(pending, m) && Ranked(m, rank)
    ensures |Sift(pending, ready, ready + Names(pending)).next| < |pending|
  {
    var k := LeastHasNoPendingParent(pending, m, rank);
    if |Sift(pending, ready, ready + Names(pending)).next| == |pending| {
      SiftStuck(pending, ready, ready + Names(pending));
    }
  }

  lemma {:induction false} RankedNotStuck(pending: seq<PublicNode>, ready: set<string>, m: Parents, rank: string -> nat)
    requires ParentsAre(pending, m) && Ranked(m, rank)
    ensures !Passes(pending, ready, ready + Names(pending)).stuck
    decreases |pending|
  {
    if pending != [] {
      var remaining := ready + Names(pending);
      var p := Sift(pending, ready, remaining);
      RankedPassMoves(pending, ready, m, rank);
      SiftFacts(pending, ready, remaining);
      SameNames(p.applied, p.next, pending);
      assert ParentsAre(p.next, m) by {
        forall i | 0 <= i < |p.next| ensures p.next[i].name in m && m[p.next[i].name] == p.next[i].parent {
          assert p.next[i] in pending;
          var j :| 0 <= j < |pending| && pending[j] == p.next[i];
        }
      }
      assert remaining == p.ready + Names(p.next);
      RankedNotStuck(p.next, p.ready, m, rank);
    }
  }

  lemma {:induction false} ParentBefore(order: seq<PublicNode>, ready: set<string>, remaining: set<string>, i: nat)
    requires ParentsFirst(order, ready, remaining) && i < |order|
    requires order[i].parent.Some? && order[i].parent.value in remaining
    ensures order[i].parent.value in ready || exists j :: 0 <= j < i && order[j].name == order[i].parent.value
    decreases order
  {
    if i > 0 {
      var p := order[i].parent.value;
      ParentBefore(order[1..], ready + {order[0].name}, remaining, i - 1);
      if p !in ready && p != order[0].name {
        var j :| 0 <= j < i - 1 && order[1..][j].name == p;
        assert order[j + 1].name == p;
      }
    }
  }

  ghost function Position(order: seq<PublicNode>, x: string): nat {
    if i: nat :| i < |order| && order[i].name == x then i + 1 else 0
  }

  lemma {:induction false} ParentScheduledFirst(nodes: seq<PublicNode>, order: seq<PublicNode>, x: string)
    requires DistinctNames(nodes) && multiset(order) == multiset(nodes) && DistinctNames(order)
    requires ParentsFirst(order, {}, Names(nodes)) && x in ParentMap(nodes) && ParentMap(nodes)[x].Some?
    ensures Position(order, ParentMap(nodes)[x].value) < Position(order, x)
  {
    SameNames(order, [], nodes);
    var k := InParentMap(nodes, x);
    assert nodes[k] in multiset(order);
    var i: nat :| i < |order| && order[i] == nodes[k];
    assert Position(order, x) == i + 1;
    var p := nodes[k].parent.value;
    if p in Names(nodes) {
      ParentBefore(order, {}, Names(nodes), i);
      var j: nat :| j < i && order[j].name == p;
      assert Position(order, p) == j + 1;
    } else {
      assert forall l :: 0 <= l < |order| ==> order[l].name in Names(order);
    }
  }

  lemma {:induction false} ScheduleRanks(nodes: seq<PublicNode>, order: seq<PublicNode>)
    requires DistinctNames(nodes) && multiset(order) == multiset(nodes) && DistinctNames(order)
    requires ParentsFirst(order, {}, Names(nodes))
    ensures Acyclic(ParentMap(nodes))
  {
    var m := ParentMap(nodes);
    var rank := (x: string) => Position(order, x);
    forall x | x in m && m[x].Some? ensures rank(m[x].value) < rank(x) {
      ParentScheduledFirst(nodes, order, x);
    }
    assert Ranked(m, rank);
  }

  lemma {:induction false} DistinctByMultiset(order: seq<PublicNode>, nodes: seq<PublicNode>)
    requires multiset(order) == multiset(nodes) && DistinctNames(nodes)
    ensures DistinctNames(order)
  {
    forall i, j | 0 <= i < j < |order| ensures order[i].name != order[j].name {
      var a, b := order[i], order[j];
      assert a in multiset(nodes) && b in multiset(nodes);
      var k :| 0 <= k < |nodes| && nodes[k] == a;
      var l :| 0 <= l < |nodes| && nodes[l] == b;
      if a == b {
        TwoCopies(order, i, j);
        OneCopy(nodes, a);
      }
    }
  }

  lemma TwoCopies<T>(s: seq<T>, i: nat, j: nat)
    requires i < j < |s| && s[i] == s[j]
    ensures multiset(s)[s[i]] >= 2
  {
    assert s == s[..j] + s[j..];
    assert s[i] in s[..j] by { assert s[..j][i] == s[i]; }
    assert s[j] in s[j..] by { assert s[j..][0] == s[j]; }
    assert s[i] in multiset(s[..j]) && s[i] in multiset(s[j..]);
  }

  lemma {:induction false} OneCopy(nodes: seq<PublicNode>, n: PublicNode)
    requires DistinctNames(nodes)
    ensures multiset(nodes)[n] <= 1
  {
    if nodes != [] {
      var rest := nodes[1..];
      assert nodes == [nodes[0]] + rest;
      OneCopy(rest, n);
      if n == nodes[0] {
        assert n !in rest;
        assert n !in multiset(rest);
      }
    }
  }

  /** The pending loop gets stuck exactly when the snapshot's parents contain a cycle. */
  lemma {:induction false} StuckIffCycle(nodes: seq<PublicNode>)
    requires DistinctNames(nodes)
    ensures Scheduled(nodes).stuck <==> !Acyclic(ParentMap(nodes))
  {
    var m := ParentMap(nodes);
    if Acyclic(m) {
      var rank :| Ranked(m, rank);
      forall i | 0 <= i < |nodes| ensures nodes[i].name in m && m[nodes[i].name] == nodes[i].parent {
        ParentMapAt(nodes, i);
      }
      RankedNotStuck(nodes, {}, m, rank);
      assert {} + Names(nodes) == Names(nodes);
    }
    if !Scheduled(nodes).stuck {
      PassesFacts(nodes, {}, Names(nodes));
      DistinctByMultiset(Scheduled(nodes).order, nodes);
      ScheduleRanks(nodes, Scheduled(nodes).order);
    }
  }
}
