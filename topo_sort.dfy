/** The depth-first cycle check behind CheckIsAcyclic, over a snapshot of the
    graph: `adj[i]` is the set of producers (input nodes, control inputs
    included) of node `i`, and `live` the set of nodes to order. A node is
    emitted after all its producers, so the resulting order puts producers
    before consumers; reaching a node that is still on the current
    depth-first path is a back edge, which means a cycle. */
module TopoSort {
  import opened Sequences

  /** Every node to order is an index of `adj`, and every edge ends at one. */
  ghost predicate EdgesWithin(adj: seq<set<nat>>, live: set<nat>) {
    && (forall x :: x in live ==> x < |adj|)
    && (forall i :: 0 <= i < |adj| ==> adj[i] <= live)
  }

  /** `order` lists every node of `live` exactly once, and each node comes
      after all of its producers. */
  ghost predicate IsTopologicalOrder(adj: seq<set<nat>>, live: set<nat>, order: seq<nat>) {
    && Distinct(order)
    && (forall x :: x in order <==> x in live)
    && (forall a, b ::
          (0 <= a < |order| && 0 <= b < |order| && order[a] < |adj| && order[b] in adj[order[a]])
          ==> b < a)
  }

  /** `c` is a cycle: each element is a producer of the one before it, and the
      first is a producer of the last. */
  ghost predicate IsCycle(adj: seq<set<nat>>, c: seq<nat>) {
    && |c| > 0
    && (forall k :: 0 <= k < |c| ==> c[k] < |adj|)
    && (forall k :: 0 <= k < |c| - 1 ==> c[k + 1] in adj[c[k]])
    && c[0] in adj[c[|c| - 1]]
  }

  ghost predicate HasCycle(adj: seq<set<nat>>) {
    exists c :: IsCycle(adj, c)
  }

  /** The state of the traversal: `done` holds the finished nodes, `order`
      lists them in the order they finished, and every finished node's
      producers finished before it. */
  ghost predicate Finished(adj: seq<set<nat>>, live: set<nat>, done: set<nat>, order: seq<nat>) {
    && Distinct(order)
    && (forall x :: x in order <==> x in done)
    && done <= live
    && (forall x :: x in done && x < |adj| ==> adj[x] <= done)
    && (forall a, b ::
          (0 <= a < |order| && 0 <= b < |order| && order[a] < |adj| && order[b] in adj[order[a]])
          ==> b < a)
  }

  /** The active depth-first path: live nodes, none finished, each one a
      producer of the node before it. */
  ghost predicate OnPath(adj: seq<set<nat>>, live: set<nat>, path: seq<nat>, done: set<nat>) {
    && (forall k :: 0 <= k < |path| ==> path[k] in live && path[k] !in done)
    && (forall k :: 0 <= k < |path| - 1 ==> path[k] < |adj| && path[k + 1] in adj[path[k]])
  }

  /** A back edge from the end of the path to a node on it closes a cycle. */
  lemma BackEdgeIsCycle(adj: seq<set<nat>>, live: set<nat>, path: seq<nat>, done: set<nat>, m: nat)
    requires EdgesWithin(adj, live)
    requires OnPath(adj, live, path, done) && path != []
    requires m in path && m in adj[path[|path| - 1]]
    ensures HasCycle(adj)
  {
    var k :| 0 <= k < |path| && path[k] == m;
    var c := path[k..];
    forall i | 0 <= i < |c| - 1
      ensures c[i + 1] in adj[c[i]]
    {
      assert c[i + 1] == path[k + i + 1] && c[i] == path[k + i];
    }
    assert IsCycle(adj, c);
  }

  /** The state of a depth-first search: whether it is still cycle-free,
      the finished nodes, and the order in which they finished. */
  datatype Walk = Walk(ok: bool, done: set<nat>, order: seq<nat>)

  /** The search, as a function: visiting `n` below the active `path`. */
  ghost function VisitF(adj: seq<set<nat>>, live: set<nat>, n: nat, path: seq<nat>,
                        done: set<nat>, order: seq<nat>): Walk
    requires EdgesWithin(adj, live) && n in live && n !in path
    decreases live - Elements(path), 1, 0
  {
    if n in done then Walk(true, done, order)
    else ScanF(adj, live, n, path, 0, done, order)
  }

  /** Scanning the producers of `n` from index `j` on, then finishing `n`. */
  ghost function ScanF(adj: seq<set<nat>>, live: set<nat>, n: nat, path: seq<nat>, j: nat,
                       done: set<nat>, order: seq<nat>): Walk
    requires EdgesWithin(adj, live) && n in live && n !in path && j <= |adj|
    decreases live - Elements(path), 0, |adj| - j
  {
    if j == |adj| then Walk(true, done + {n}, order + [n])
    else if j in adj[n] && j !in done then
      if j in path + [n] then Walk(false, done, order)
      else
        assert Elements(path + [n]) == Elements(path) + {n};
        var w := VisitF(adj, live, j, path + [n], done, order);
        if !w.ok then w else ScanF(adj, live, n, path, j + 1, w.done, w.order)
    else ScanF(adj, live, n, path, j + 1, done, order)
  }

  /** Visiting the live nodes from index `i` on as roots. */
  ghost function SortF(adj: seq<set<nat>>, live: set<nat>, i: nat, done: set<nat>, order: seq<nat>): Walk
    requires EdgesWithin(adj, live) && i <= |adj|
    decreases |adj| - i
  {
    if i == |adj| then Walk(true, done, order)
    else if i in live then
      var w := VisitF(adj, live, i, [], done, order);
      if !w.ok then w else SortF(adj, live, i + 1, w.done, w.order)
    else SortF(adj, live, i + 1, done, order)
  }

  /** The order the search produces; it depends on nothing but the graph. */
  ghost function DfsOrder(adj: seq<set<nat>>, live: set<nat>): seq<nat> {
    if EdgesWithin(adj, live) then SortF(adj, live, 0, {}, []).order else []
  }

  /** Visits `n` and, first, all its producers that are not finished yet. */
  method Visit(adj: seq<set<nat>>, live: set<nat>, n: nat, path: seq<nat>,
               done: set<nat>, order: seq<nat>)
    returns (ok: bool, done': set<nat>, order': seq<nat>)
    requires EdgesWithin(adj, live)
    requires n in live && n !in path
    requires Finished(adj, live, done, order)
    requires OnPath(adj, live, path, done)
    requires path != [] ==> n in adj[path[|path| - 1]]
    ensures Finished(adj, live, done', order')
    ensures done <= done'
    ensures forall k :: 0 <= k < |path| ==> path[k] !in done'
    ensures ok ==> n in done'
    ensures !ok ==> HasCycle(adj)
    ensures Walk(ok, done', order') == VisitF(adj, live, n, path, done, order)
    decreases live - Elements(path), 1, 0
  {
    if n in done {
      return true, done, order;
    }
    var p := path + [n];
    assert forall k :: 0 <= k < |path| ==> p[k] == path[k];
    assert p[|path|] == n;
    ok, done', order' := true, done, order;
    var j := 0;
    while j < |adj|
      invariant 0 <= j <= |adj|
      invariant Finished(adj, live, done', order')
      invariant done <= done'
      invariant OnPath(adj, live, p, done') && n !in done'
      invariant forall m :: 0 <= m < j && m in adj[n] ==> m in done'
      invariant ScanF(adj, live, n, path, j, done', order') == VisitF(adj, live, n, path, done, order)
    {
      ok, done', order' := VisitProducer(adj, live, n, path, j, done', order');
      if !ok {
        return;
      }
      j := j + 1;
    }
    assert n in p;
    assert n !in done';
    assert forall m :: m in adj[n] ==> m in done';
    done', order' := done' + {n}, order' + [n];
  }

  /** One step of visiting `n`: when `j` is an unfinished producer of `n`,
      either it is on the path, which is a back edge, or it is visited. */
  method VisitProducer(adj: seq<set<nat>>, live: set<nat>, n: nat, path: seq<nat>, j: nat,
                       done: set<nat>, order: seq<nat>)
    returns (ok: bool, done': set<nat>, order': seq<nat>)
    requires EdgesWithin(adj, live)
    requires n in live && n !in path && n !in done && j < |adj|
    requires Finished(adj, live, done, order)
    requires OnPath(adj, live, path + [n], done)
    ensures Finished(adj, live, done', order')
    ensures done <= done'
    ensures OnPath(adj, live, path + [n], done')
    ensures ok && j in adj[n] ==> j in done'
    ensures !ok ==> HasCycle(adj)
    ensures ok ==> ScanF(adj, live, n, path, j, done, order) ==
                   ScanF(adj, live, n, path, j + 1, done', order')
    ensures !ok ==> ScanF(adj, live, n, path, j, done, order) == Walk(false, done', order')
    decreases live - Elements(path), 0, 0
  {
    var p := path + [n];
    if j in adj[n] && j !in done {
      if j in p {
        BackEdgeIsCycle(adj, live, p, done, j);
        return false, done, order;
      }
      assert Elements(p) == Elements(path) + {n};
      ok, done', order' := Visit(adj, live, j, p, done, order);
      assert forall k :: 0 <= k < |path| ==> p[k] == path[k];
    } else {
      ok, done', order' := true, done, order;
    }
  }

  /** Orders all live nodes, visiting them as roots in ascending index order.
      Succeeds exactly when there is no cycle, and then returns an order that
      puts every producer before its consumers. */
  method Sort(adj: seq<set<nat>>, live: set<nat>) returns (ok: bool, order: seq<nat>)
    requires EdgesWithin(adj, live)
    ensures ok <==> !HasCycle(adj)
    ensures ok ==> IsTopologicalOrder(adj, live, order)
    ensures ok == SortF(adj, live, 0, {}, []).ok && order == SortF(adj, live, 0, {}, []).order
    ensures ok ==> order == DfsOrder(adj, live)
  {
    var done: set<nat> := {};
    order := [];
    var i := 0;
    while i < |adj|
      invariant 0 <= i <= |adj|
      invariant Finished(adj, live, done, order)
      invariant forall x :: x in live && x < i ==> x in done
      invariant SortF(adj, live, i, done, order) == SortF(adj, live, 0, {}, [])
    {
      if i in live {
        ok, done, order := Visit(adj, live, i, [], done, order);
        if !ok {
          return;
        }
      }
      i := i + 1;
    }
    assert done == live;
    ok := true;
    TopologicalOrderIsAcyclic(adj, live, order);
  }

  /** A graph without edges has no cycle. */
  lemma NoEdgesNoCycle(adj: seq<set<nat>>)
    requires forall i :: 0 <= i < |adj| ==> adj[i] == {}
    ensures !HasCycle(adj)
  {
  }

  ghost function PositionOf(order: seq<nat>, x: nat): (p: nat)
    requires x in order
    ensures p < |order| && order[p] == x
  {
    var p :| 0 <= p < |order| && order[p] == x; p
  }

  /** In a topological order every live producer comes before its consumer. */
  lemma ProducerPrecedes(adj: seq<set<nat>>, live: set<nat>, order: seq<nat>, producer: nat, consumer: nat)
    requires IsTopologicalOrder(adj, live, order)
    requires consumer in live && consumer < |adj| && producer in adj[consumer] && producer in live
    ensures producer in order && consumer in order
    ensures PositionOf(order, producer) < PositionOf(order, consumer)
  {
    var a := PositionOf(order, consumer);
    var b := PositionOf(order, producer);
    assert order[b] in adj[order[a]];
  }

  /** Along a cycle, positions in a topological order strictly decrease. */
  lemma {:induction false} PositionsDecrease(adj: seq<set<nat>>, live: set<nat>, order: seq<nat>,
                                             c: seq<nat>, k: nat)
    requires EdgesWithin(adj, live) && IsTopologicalOrder(adj, live, order)
    requires IsCycle(adj, c) && k < |c|
    ensures c[k] in order
    ensures PositionOf(order, c[k]) <= PositionOf(order, c[0])
    ensures k > 0 ==> PositionOf(order, c[k]) < PositionOf(order, c[0])
  {
    assert c[0] in live by {
      assert c[0] in adj[c[|c| - 1]];
    }
    if k > 0 {
      PositionsDecrease(adj, live, order, c, k - 1);
      assert c[k] in adj[c[k - 1]];
      assert c[k] in live;
      var a := PositionOf(order, c[k - 1]);
      var b := PositionOf(order, c[k]);
      assert order[b] in adj[order[a]];
    }
  }

  /** A graph with a topological order has no cycle. */
  lemma TopologicalOrderIsAcyclic(adj: seq<set<nat>>, live: set<nat>, order: seq<nat>)
    requires EdgesWithin(adj, live) && IsTopologicalOrder(adj, live, order)
    ensures !HasCycle(adj)
  {
    forall c | IsCycle(adj, c)
      ensures false
    {
      var last := |c| - 1;
      PositionsDecrease(adj, live, order, c, last);
    }
  }
}
