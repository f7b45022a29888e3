/** The reachability check (`is_connected`): a recursive depth-first search
    over the edge list that threads one caller-owned visit map through every
    call, marks a city visited before comparing it with the target or
    recursing into it, and stops at the first neighbour equal to the target. */
module Search {
  import opened Graph

  /** The visit map of one query. The source keys a hash map by city and
      stores `()`; only its key set matters. */
  class VisitMap {
    var visited: set<City>

    /** `HashMap::new()`. */
    constructor ()
      ensures visited == {}
    {
      visited := {};
    }
  }

  /** Every city added to the visit map since `before` has had all its
      neighbours added too. */
  ghost predicate ExpandedSince(edges: seq<Edge>, before: set<City>, after: set<City>) {
    forall c :: c in after && c !in before ==> ExpandedIn(edges, c, after)
  }

  /** `is_connected(conn_list, src_city, tgt_city, visit_map)`.
      The visit map only grows, and only by cities of the edge list, so the
      cities not yet visited measure the recursion. A `true` answer comes with
      a walk to the target, which is then in the map. A `false` answer leaves
      every neighbour of `src` in the map, every city this call added fully
      expanded, and the target not added by this call. */
  method IsConnected(edges: seq<Edge>, src: City, tgt: City, visitMap: VisitMap) returns (found: bool)
    modifies visitMap
    ensures old(visitMap.visited) <= visitMap.visited <= old(visitMap.visited) + Cities(edges)
    ensures found ==> Reachable(edges, src, tgt) && tgt in visitMap.visited
    ensures !found ==> ExpandedIn(edges, src, visitMap.visited)
    ensures !found ==> ExpandedSince(edges, old(visitMap.visited), visitMap.visited)
    ensures !found ==> tgt in old(visitMap.visited) || tgt !in visitMap.visited
    decreases Cities(edges) - visitMap.visited
  {
    var conns := Neighbours(edges, src);
    for i := 0 to |conns|
      invariant old(visitMap.visited) <= visitMap.visited <= old(visitMap.visited) + Cities(edges)
      invariant forall k :: 0 <= k < i ==> conns[k] in visitMap.visited
      invariant ExpandedSince(edges, old(visitMap.visited), visitMap.visited)
      invariant tgt in old(visitMap.visited) || tgt !in visitMap.visited
    {
      var conn := conns[i];
      // Skip visited cities, so that cycles do not recurse forever.
      if conn in visitMap.visited {
        continue;
      }
      NeighboursIff(edges, src, conn);
      ghost var before := visitMap.visited;
      visitMap.visited := visitMap.visited + {conn};
      if conn == tgt {
        AdjacentReachable(edges, src, tgt);
        return true;
      }
      var sub := IsConnected(edges, conn, tgt, visitMap);
      if sub {
        ReachablePrepend(edges, src, conn, tgt);
        return true;
      }
      forall c | c in visitMap.visited && c !in old(visitMap.visited)
        ensures ExpandedIn(edges, c, visitMap.visited)
      {
        if c in before {
          assert ExpandedIn(edges, c, before);
        }
      }
    }
    forall n | Adjacent(edges, src, n) ensures n in visitMap.visited {
      NeighboursIff(edges, src, n);
    }
    return false;
  }

  /** One request line: `is_connected` with a fresh visit map. It answers
      `true` exactly when a walk of one or more edges joins the two cities. */
  method Query(edges: seq<Edge>, lval: City, rval: City) returns (connected: bool)
    ensures connected <==> Reachable(edges, lval, rval)
  {
    var visitMap := new VisitMap();
    connected := IsConnected(edges, lval, rval, visitMap);
    if !connected {
      ClosedSetBlocksWalks(edges, lval, rval, visitMap.visited);
    }
  }
}
