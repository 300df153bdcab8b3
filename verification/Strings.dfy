/** Strings in the order Rust sorts them, and the sorted listing of a set. */
module Strings {
  predicate Less(a: string, b: string) {
    if b == "" then false
    else if a == "" then true
    else a[0] < b[0] || (a[0] == b[0] && Less(a[1..], b[1..]))
  }

  lemma {:induction false} LessTotal(a: string, b: string)
    ensures Less(a, b) || a == b || Less(b, a)
    ensures !(Less(a, b) && Less(b, a)) && !(Less(a, b) && a == b)
  {
    if a != "" && b != "" && a[0] == b[0] {
      LessTotal(a[1..], b[1..]);
      assert a == [a[0]] + a[1..] && b == [b[0]] + b[1..];
    }
  }

  lemma {:induction false} LessTransitive(a: string, b: string, c: string)
    requires Less(a, b) && Less(b, c)
    ensures Less(a, c)
  {
    if a != "" && a[0] == b[0] && b[0] == c[0] {
      LessTransitive(a[1..], b[1..], c[1..]);
    }
  }

  ghost predicate Ascending(q: seq<string>) {
    forall i, j :: 0 <= i < j < |q| ==> Less(q[i], q[j])
  }

  function Insert(x: string, q: seq<string>): seq<string> {
    if q == [] then [x]
    else if Less(x, q[0]) then [x] + q
    else [q[0]] + Insert(x, q[1..])
  }

  lemma {:induction false} InsertAscending(x: string, q: seq<string>)
    requires Ascending(q) && x !in q
    ensures Ascending(Insert(x, q)) && forall y :: y in Insert(x, q) <==> y == x || y in q
  {
    if q != [] {
      LessTotal(x, q[0]);
      if Less(x, q[0]) {
        forall j | 0 <= j < |q| ensures Less(x, q[j]) {
          if j > 0 {
            LessTransitive(x, q[0], q[j]);
          }
        }
      } else {
        InsertAscending(x, q[1..]);
        forall y | y in Insert(x, q[1..]) ensures Less(q[0], y) {
        }
      }
    }
  }

  /** What sorting the elements of a set gives. */
  ghost function Sorted(s: set<string>): (q: seq<string>)
    ensures Ascending(q) && forall x :: x in q <==> x in s
  {
    if s == {} then []
    else
      var x :| x in s;
      InsertAscending(x, Sorted(s - {x}));
      Insert(x, Sorted(s - {x}))
  }

  lemma HasElement(q: seq<string>)
    ensures q == [] || exists x :: x in q
  {
    if q != [] {
      assert q[0] in q;
    }
  }

  /** There is only one sorted listing. */
  lemma {:induction false} AscendingUnique(p: seq<string>, q: seq<string>)
    requires Ascending(p) && Ascending(q) && forall x :: x in p <==> x in q
    ensures p == q
  {
    if p == [] {
      HasElement(q);
    } else {
      assert p[0] in q;
      assert q[0] in p;
      LessTotal(p[0], q[0]);
      assert p[0] == q[0];
      forall x ensures x in p[1..] <==> x in q[1..] {
        assert x in p <==> x == p[0] || x in p[1..];
        assert x in q <==> x == q[0] || x in q[1..];
        if x == p[0] {
          LessTotal(x, x);
        }
      }
      AscendingUnique(p[1..], q[1..]);
    }
  }
}
