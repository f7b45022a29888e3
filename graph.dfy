/** The edge list (`ConnectionList`) and the neighbour computation that the
    search performs on it, together with the meaning of a query: a walk of one
    or more edges between two cities, edges being usable in either direction. */
module Graph {

  type City = string

  /** One accepted line of the connection section, in the order it was read. */
  type Edge = (City, City)

  /** Every city that occurs at either end of some edge. */
  function Cities(edges: seq<Edge>): set<City> {
    (set e | e in edges :: e.0) + (set e | e in edges :: e.1)
  }

  /** `a` and `b` share an edge, written either way round. */
  predicate Adjacent(edges: seq<Edge>, a: City, b: City) {
    (a, b) in edges || (b, a) in edges
  }

  /** The list `conns` built at the start of `is_connected`: for each edge, in
      insertion order, that mentions `city` at either end, the opposite end (a
      self-loop gives `city` itself). */
  function Neighbours(edges: seq<Edge>, city: City): (conns: seq<City>)
    ensures |conns| <= |edges|
    ensures forall c :: c in conns ==> c in Cities(edges)
  {
    if edges == [] then []
    else
      var (a, b) := edges[0];
      var here := if a == city || b == city then [if a == city then b else a] else [];
      assert forall e :: e in edges[1..] ==> e in edges;
      here + Neighbours(edges[1..], city)
  }

  /** A city is listed as a neighbour exactly when it shares an edge with the
      city asked about. */
  lemma {:induction false} NeighboursIff(edges: seq<Edge>, city: City, c: City)
    ensures c in Neighbours(edges, city) <==> Adjacent(edges, city, c)
  {
    if edges != [] {
      NeighboursIff(edges[1..], city, c);
      assert edges == [edges[0]] + edges[1..];
    }
  }

  /** Neighbours follow the edge order: the edges of a concatenation contribute
      their neighbours in turn, so a duplicated edge lists its end twice. */
  lemma {:induction false} NeighboursAppend(e1: seq<Edge>, e2: seq<Edge>, city: City)
    ensures Neighbours(e1 + e2, city) == Neighbours(e1, city) + Neighbours(e2, city)
  {
    if e1 != [] {
      NeighboursAppend(e1[1..], e2, city);
      assert (e1 + e2)[0] == e1[0] && (e1 + e2)[1..] == e1[1..] + e2;
    } else {
      assert e1 + e2 == e2;
    }
  }

  /** What a single edge contributes: the other end when `city` is at one end,
      `city` itself for a self-loop on it, nothing otherwise. */
  lemma NeighboursOfOneEdge(a: City, b: City, city: City)
    ensures a == city ==> Neighbours([(a, b)], city) == [b]
    ensures a != city && b == city ==> Neighbours([(a, b)], city) == [a]
    ensures a != city && b != city ==> Neighbours([(a, b)], city) == []
  {
    assert [(a, b)][1..] == [];
  }

  /** A walk of one or more edges: consecutive cities are adjacent. */
  ghost predicate IsWalk(edges: seq<Edge>, p: seq<City>) {
    |p| >= 2 && forall i :: 0 <= i < |p| - 1 ==> Adjacent(edges, p[i], p[i + 1])
  }

  /** What a query answers: some walk of one or more edges leads from `a` to `b`. */
  ghost predicate Reachable(edges: seq<Edge>, a: City, b: City) {
    exists p :: IsWalk(edges, p) && p[0] == a && p[|p| - 1] == b
  }

  /** Every city of `S` has all its neighbours inside `S`. */
  ghost predicate ExpandedIn(edges: seq<Edge>, c: City, S: set<City>) {
    forall n :: Adjacent(edges, c, n) ==> n in S
  }

  /** One edge is a walk. */
  lemma AdjacentReachable(edges: seq<Edge>, a: City, b: City)
    requires Adjacent(edges, a, b)
    ensures Reachable(edges, a, b)
  {
    assert IsWalk(edges, [a, b]);
  }

  /** A walk can be extended at its start by one edge. */
  lemma ReachablePrepend(edges: seq<Edge>, a: City, b: City, c: City)
    requires Adjacent(edges, a, b) && Reachable(edges, b, c)
    ensures Reachable(edges, a, c)
  {
    var p :| IsWalk(edges, p) && p[0] == b && p[|p| - 1] == c;
    var q := [a] + p;
    assert forall i :: 1 <= i < |q| - 1 ==> q[i] == p[i - 1] && q[i + 1] == p[i];
    assert IsWalk(edges, q);
  }

  /** Two walks that meet make one. */
  lemma ReachableTransitive(edges: seq<Edge>, a: City, b: City, c: City)
    requires Reachable(edges, a, b) && Reachable(edges, b, c)
    ensures Reachable(edges, a, c)
  {
    var p :| IsWalk(edges, p) && p[0] == a && p[|p| - 1] == b;
    var q :| IsWalk(edges, q) && q[0] == b && q[|q| - 1] == c;
    var w := p + q[1..];
    forall i | 0 <= i < |w| - 1 ensures Adjacent(edges, w[i], w[i + 1]) {
      if i < |p| - 1 {
        assert w[i] == p[i] && w[i + 1] == p[i + 1];
      } else {
        var j := i - |p| + 1;
        assert w[i] == q[j] && w[i + 1] == q[j + 1];
      }
    }
    assert IsWalk(edges, w);
  }

  function Reverse(p: seq<City>): (r: seq<City>)
    ensures |r| == |p|
    ensures forall i :: 0 <= i < |p| ==> r[i] == p[|p| - 1 - i]
  {
    if p == [] then [] else Reverse(p[1..]) + [p[0]]
  }

  /** Edges are matched on both ends, so a walk can be read backwards. */
  lemma ReachableSymmetric(edges: seq<Edge>, a: City, b: City)
    ensures Reachable(edges, a, b) <==> Reachable(edges, b, a)
  {
    if Reachable(edges, a, b) {
      ReverseWalk(edges, a, b);
    }
    if Reachable(edges, b, a) {
      ReverseWalk(edges, b, a);
    }
  }

  lemma ReverseWalk(edges: seq<Edge>, a: City, b: City)
    requires Reachable(edges, a, b)
    ensures Reachable(edges, b, a)
  {
    var p :| IsWalk(edges, p) && p[0] == a && p[|p| - 1] == b;
    var r := Reverse(p);
    forall i | 0 <= i < |r| - 1 ensures Adjacent(edges, r[i], r[i + 1]) {
      var j := |p| - 2 - i;
      assert r[i] == p[j + 1] && r[i + 1] == p[j];
      assert Adjacent(edges, p[j], p[j + 1]);
    }
    assert IsWalk(edges, r);
  }

  /** Only cities that occur in some edge take part in a walk: a city named by
      no edge reaches nothing and is reached by nothing. */
  lemma ReachableEndsInCities(edges: seq<Edge>, a: City, b: City)
    requires Reachable(edges, a, b)
    ensures a in Cities(edges) && b in Cities(edges)
  {
    var p :| IsWalk(edges, p) && p[0] == a && p[|p| - 1] == b;
    assert Adjacent(edges, p[0], p[1]);
    assert Adjacent(edges, p[|p| - 2], p[|p| - 1]);
  }

  /** A city reaches itself exactly when some edge mentions it: the walk
      goes out along that edge and comes straight back. */
  lemma SelfReachable(edges: seq<Edge>, a: City)
    ensures Reachable(edges, a, a) <==> a in Cities(edges)
  {
    if Reachable(edges, a, a) {
      ReachableEndsInCities(edges, a, a);
    }
    if a in Cities(edges) {
      var e :| e in edges && (e.0 == a || e.1 == a);
      var x := if e.0 == a then e.1 else e.0;
      assert Adjacent(edges, a, x) && Adjacent(edges, x, a);
      assert IsWalk(edges, [a, x, a]);
    }
  }

  /** Every city of a walk after the first lies in `S` once the first step
      does and `S` is closed under taking neighbours. */
  lemma {:induction false} WalkStaysInside(edges: seq<Edge>, p: seq<City>, S: set<City>, k: nat)
    requires IsWalk(edges, p) && p[1] in S
    requires forall c :: c in S ==> ExpandedIn(edges, c, S)
    requires 1 <= k < |p|
    ensures p[k] in S
    decreases k
  {
    if k > 1 {
      WalkStaysInside(edges, p, S, k - 1);
      assert Adjacent(edges, p[k - 1], p[k]);
    }
  }

  /** No walk leaves a set of cities that holds all neighbours of its members:
      a search that has gathered such a set around `a` without meeting `b`
      proves that `b` is not reachable, and two groups of cities with no edge
      between them are not connected. */
  lemma ClosedSetBlocksWalks(edges: seq<Edge>, a: City, b: City, S: set<City>)
    requires ExpandedIn(edges, a, S)
    requires forall c :: c in S ==> ExpandedIn(edges, c, S)
    requires b !in S
    ensures !Reachable(edges, a, b)
  {
    if Reachable(edges, a, b) {
      var p :| IsWalk(edges, p) && p[0] == a && p[|p| - 1] == b;
      assert Adjacent(edges, p[0], p[1]);
      WalkStaysInside(edges, p, S, |p| - 1);
    }
  }

  /** A self-query is not answered trivially: with the single edge (A, B),
      A reaches itself through B, and C, named by no edge, does not. */
  lemma SelfQueries()
    ensures Reachable([("A", "B")], "A", "A")
    ensures !Reachable([("A", "B")], "C", "C")
  {
    SelfReachable([("A", "B")], "A");
    SelfReachable([("A", "B")], "C");
  }
}
