// The shape of a stored document: one rooted tree over child references and
// atom placements (crates/xiaomu-core/src/document/snapshot.rs).
module Tree {
  import opened Wrappers
  import opened Content
  import opened Nodes

  predicate Edge(store: Store, parent: NodeId, child: NodeId) {
    parent in store && child in References(store[parent])
  }

  lemma EdgesUnfold(store: Store, n: NodeId)
    requires n in store
    ensures forall c :: Edge(store, n, c) <==> c in References(store[n])
  {}

  // A child reference, as opposed to an atom placement.
  predicate ChildEdge(store: Store, parent: NodeId, child: NodeId) {
    parent in store && store[parent].content.Children? && child in store[parent].content.children
  }

  predicate Distinct<T(==)>(s: seq<T>) {
    forall i, j :: 0 <= i < j < |s| ==> s[i] != s[j]
  }

  ghost predicate NodesOk(store: Store) {
    forall id :: id in store ==> store[id].id == id && NodeOk(store[id])
  }

  // No reference dangles, and each reference occurs once in its node.
  ghost predicate EdgesClosed(store: Store) {
    && (forall p, c :: Edge(store, p, c) ==> c in store)
    && (forall p :: p in store ==> Distinct(References(store[p])))
  }

  ghost predicate OneParent(store: Store) {
    forall p, q, c :: Edge(store, p, c) && Edge(store, q, c) ==> p == q
  }

  // Placements refer to inline atoms.
  ghost predicate AtomsPlaced(store: Store) {
    forall p, c :: Edge(store, p, c) && store[p].content.Inline? && c in store ==> store[c].kind.InlineAtom?
  }

  // The distance of every node from the root.
  ghost predicate IsDepth(store: Store, root: NodeId, depth: map<NodeId, nat>) {
    && store.Keys <= depth.Keys
    && (forall p, c :: Edge(store, p, c) && c in store ==> depth[c] == depth[p] + 1)
    && (forall id :: id in store && id != root ==> exists p :: Edge(store, p, id))
  }

  // A tree rooted at `root`.
  ghost predicate IsTree(store: Store, root: NodeId) {
    && root in store
    && NodesOk(store)
    && EdgesClosed(store)
    && OneParent(store)
    && AtomsPlaced(store)
    && (forall p :: !Edge(store, p, root))
    && (exists depth :: IsDepth(store, root, depth))
  }

  // ----- reachability

  ghost predicate IsPath(store: Store, path: seq<NodeId>) {
    forall i :: 0 < i < |path| ==> Edge(store, path[i - 1], path[i])
  }

  ghost predicate PathFromTo(store: Store, path: seq<NodeId>, from: NodeId, to: NodeId) {
    && |path| > 0 && path[0] == from && path[|path| - 1] == to
    && IsPath(store, path)
  }

  ghost predicate Reaches(store: Store, from: NodeId, to: NodeId) {
    exists path :: PathFromTo(store, path, from, to)
  }

  lemma ReachesSelf(store: Store, x: NodeId)
    ensures Reaches(store, x, x)
  {
    assert PathFromTo(store, [x], x, x);
  }

  lemma ReachesStep(store: Store, x: NodeId, y: NodeId, z: NodeId)
    requires Reaches(store, x, y) && Edge(store, y, z)
    ensures Reaches(store, x, z)
  {
    var path :| PathFromTo(store, path, x, y);
    assert PathFromTo(store, path + [z], x, z);
  }

  // A set holding `from` and closed under edges holds everything reachable.
  lemma {:induction false} ReachableInClosed(store: Store, path: seq<NodeId>, from: NodeId, to: NodeId, s: set<NodeId>)
    requires PathFromTo(store, path, from, to) && from in s
    requires forall p, c :: p in s && Edge(store, p, c) ==> c in s
    ensures to in s
    decreases |path|
  {
    if |path| > 1 {
      var n := |path| - 1;
      assert PathFromTo(store, path[..n], from, path[n - 1]);
      ReachableInClosed(store, path[..n], from, path[n - 1], s);
      assert Edge(store, path[n - 1], path[n]);
    }
  }

  // In a tree everything stored is reachable from the root.
  lemma {:induction false} TreeReaches(store: Store, root: NodeId, depth: map<NodeId, nat>, x: NodeId)
    requires IsDepth(store, root, depth) && x in store && EdgesClosed(store)
    ensures Reaches(store, root, x)
    decreases depth[x]
  {
    if x == root {
      ReachesSelf(store, root);
    } else {
      var p :| Edge(store, p, x);
      TreeReaches(store, root, depth, p);
      ReachesStep(store, root, p, x);
    }
  }

  // Conversely, unique parents and reachability from a parentless root give depths.
  ghost predicate RootedReachable(store: Store, root: NodeId) {
    && root in store && EdgesClosed(store) && OneParent(store)
    && (forall p :: !Edge(store, p, root))
    && (forall x :: x in store ==> Reaches(store, root, x))
  }

  // With one parent each and none for the root, paths from the root are unique.
  lemma {:induction false} PathsAgree(store: Store, root: NodeId, a: seq<NodeId>, b: seq<NodeId>, x: NodeId)
    requires OneParent(store) && forall p :: !Edge(store, p, root)
    requires PathFromTo(store, a, root, x) && PathFromTo(store, b, root, x)
    ensures |a| == |b|
    decreases |a|
  {
    var n, m := |a| - 1, |b| - 1;
    LastEdge(store, a, root, x);
    LastEdge(store, b, root, x);
    if n > 0 && m > 0 {
      assert PathFromTo(store, a[..n], root, a[n - 1]) && PathFromTo(store, b[..m], root, b[m - 1]);
      PathsAgree(store, root, a[..n], b[..m], a[n - 1]);
    }
  }

  lemma LastEdge(store: Store, path: seq<NodeId>, from: NodeId, to: NodeId)
    requires PathFromTo(store, path, from, to)
    ensures |path| > 1 ==> Edge(store, path[|path| - 2], to)
    ensures |path| == 1 ==> from == to
  {}

  ghost function RootPath(store: Store, root: NodeId, x: NodeId): (path: seq<NodeId>)
    requires Reaches(store, root, x)
    ensures PathFromTo(store, path, root, x)
  {
    var route :| PathFromTo(store, route, root, x);
    route
  }

  lemma {:induction false} ReachableHasDepth(store: Store, root: NodeId)
    requires RootedReachable(store, root)
    ensures exists depth :: IsDepth(store, root, depth)
  {
    var depth := map x | x in store :: |RootPath(store, root, x)|;
    forall p, c | Edge(store, p, c) && c in store
      ensures depth[c] == depth[p] + 1
    {
      var path := RootPath(store, root, p);
      assert PathFromTo(store, path + [c], root, c);
      PathsAgree(store, root, path + [c], RootPath(store, root, c), c);
    }
    forall x | x in store && x != root
      ensures exists p :: Edge(store, p, x)
    {
      var path := RootPath(store, root, x);
      assert Edge(store, path[|path| - 2], x);
    }
    assert IsDepth(store, root, depth);
  }

  // ----- edits that keep the tree

  ghost predicate SameEdges(store: Store, store': Store) {
    forall p, c :: Edge(store', p, c) <==> Edge(store, p, c)
  }

  ghost predicate NodesDistinct(store: Store) {
    forall p :: p in store ==> Distinct(References(store[p]))
  }

  // Payload changes that leave every reference in place.
  lemma {:induction false} TreeStays(store: Store, store': Store, root: NodeId)
    requires IsTree(store, root) && store'.Keys == store.Keys && SameEdges(store, store')
    requires NodesOk(store') && NodesDistinct(store') && AtomsPlaced(store')
    ensures IsTree(store', root)
  {
    hide Edge, NodeOk, Distinct;
    var depth :| IsDepth(store, root, depth);
    assert IsDepth(store', root, depth);
  }

  lemma {:induction false} DepthGrows(store: Store, store': Store, root: NodeId, at: NodeId, x: NodeId,
                                      depth: map<NodeId, nat>)
    requires IsDepth(store, root, depth) && EdgesClosed(store)
    requires x !in store && at in store && store'.Keys == store.Keys + {x}
    requires forall p, c :: Edge(store', p, c) <==> Edge(store, p, c) || (p == at && c == x)
    ensures at in depth && IsDepth(store', root, depth[x := depth[at] + 1])
  {
    hide Edge, Distinct;
    EdgeParentStored(store);
    forall id | id in store' && id != root
      ensures exists p :: Edge(store', p, id)
    {
      if id == x {
        assert Edge(store', at, x);
      } else {
        var p :| Edge(store, p, id);
        assert Edge(store', p, id);
      }
    }
  }

  // A fresh leaf `x` below `at`.
  lemma {:induction false} TreeGrows(store: Store, store': Store, root: NodeId, at: NodeId, x: NodeId)
    requires IsTree(store, root) && x !in store && at in store && store'.Keys == store.Keys + {x}
    requires forall p, c :: Edge(store', p, c) <==> Edge(store, p, c) || (p == at && c == x)
    requires NodesOk(store') && NodesDistinct(store') && AtomsPlaced(store')
    ensures IsTree(store', root)
  {
    hide Edge, NodeOk, Distinct, IsDepth;
    var depth :| IsDepth(store, root, depth);
    DepthGrows(store, store', root, at, x, depth);
  }

  lemma EdgeParentStored(store: Store)
    ensures forall p, c :: Edge(store, p, c) ==> p in store
  {}

  // A downward-closed set leaves.
  lemma {:induction false} TreeShrinks(store: Store, store': Store, root: NodeId, gone: set<NodeId>)
    requires IsTree(store, root) && root !in gone && store'.Keys == store.Keys - gone
    requires forall p, c :: p in gone && Edge(store, p, c) ==> c in gone
    requires forall p, c :: Edge(store', p, c) <==> Edge(store, p, c) && p !in gone && c !in gone
    requires NodesOk(store') && NodesDistinct(store') && AtomsPlaced(store')
    ensures IsTree(store', root)
  {
    hide Edge, NodeOk, Distinct;
    var depth :| IsDepth(store, root, depth);
    forall id | id in store' && id != root
      ensures exists p :: Edge(store', p, id)
    {
      var p :| Edge(store, p, id);
      assert Edge(store', p, id);
    }
    assert IsDepth(store', root, depth);
  }

  ghost predicate SplitEdges(store: Store, store': Store, parent: NodeId, node: NodeId, tail: NodeId,
                             moved: set<NodeId>) {
    && (forall c :: c in moved ==> Edge(store, node, c))
    && (forall p, c :: Edge(store', p, c) <==>
          (p == parent && c == tail) || (p == tail && c in moved) || (Edge(store, p, c) && !(p == node && c in moved)))
  }

  lemma {:induction false} DepthSplits(store: Store, store': Store, root: NodeId, parent: NodeId, node: NodeId,
                                       tail: NodeId, moved: set<NodeId>, depth: map<NodeId, nat>)
    requires IsDepth(store, root, depth) && EdgesClosed(store)
    requires tail !in store && Edge(store, parent, node) && store'.Keys == store.Keys + {tail}
    requires SplitEdges(store, store', parent, node, tail, moved)
    ensures node in store && node in depth && IsDepth(store', root, depth[tail := depth[node]])
  {
    hide Edge, Distinct;
    EdgeParentStored(store);
    EdgeChildStored(store, parent, node);
    forall id | id in store' && id != root
      ensures exists p :: Edge(store', p, id)
    {
      if id == tail {
        assert Edge(store', parent, tail);
      } else if id in moved {
        assert Edge(store', tail, id);
      } else {
        var p :| Edge(store, p, id);
        assert Edge(store', p, id);
      }
    }
  }

  // A fresh sibling `tail` of `node` takes over the references in `moved`.
  lemma {:induction false} TreeSplits(store: Store, store': Store, root: NodeId, parent: NodeId, node: NodeId,
                                      tail: NodeId, moved: set<NodeId>)
    requires IsTree(store, root) && tail !in store && Edge(store, parent, node) && store'.Keys == store.Keys + {tail}
    requires SplitEdges(store, store', parent, node, tail, moved)
    requires NodesOk(store') && NodesDistinct(store') && AtomsPlaced(store')
    ensures IsTree(store', root)
  {
    hide Edge, NodeOk, Distinct, IsDepth;
    EdgeParentStored(store);
    var depth :| IsDepth(store, root, depth);
    DepthSplits(store, store', root, parent, node, tail, moved, depth);
  }

  ghost predicate JoinEdges(store: Store, store': Store, first: NodeId, second: NodeId) {
    forall p, c :: Edge(store', p, c) <==>
      (Edge(store, p, c) && p != second && c != second) || (p == first && Edge(store, second, c))
  }

  lemma {:induction false} DepthJoins(store: Store, store': Store, root: NodeId, parent: NodeId, first: NodeId,
                                      second: NodeId, depth: map<NodeId, nat>)
    requires IsDepth(store, root, depth) && EdgesClosed(store)
    requires first != second && Edge(store, parent, first) && Edge(store, parent, second)
    requires store'.Keys == store.Keys - {second} && JoinEdges(store, store', first, second)
    ensures IsDepth(store', root, depth) && !Edge(store, second, second)
  {
    hide Edge, Distinct;
    EdgeParentStored(store);
    EdgeChildStored(store, parent, first);
    EdgeChildStored(store, parent, second);
    forall id | id in store' && id != root
      ensures exists p :: Edge(store', p, id)
    {
      var p :| Edge(store, p, id);
      if p == second {
        assert Edge(store', first, id);
      } else {
        assert Edge(store', p, id);
      }
    }
    forall p, c | Edge(store', p, c) && c in store'
      ensures depth[c] == depth[p] + 1
    {
      if p == first && Edge(store, second, c) {
        assert depth[first] == depth[parent] + 1 == depth[second];
      }
    }
  }

  // `second` leaves and its sibling `first` takes over its references.
  lemma {:induction false} TreeJoins(store: Store, store': Store, root: NodeId, parent: NodeId, first: NodeId,
                                     second: NodeId)
    requires IsTree(store, root) && first != second && Edge(store, parent, first) && Edge(store, parent, second)
    requires store'.Keys == store.Keys - {second} && JoinEdges(store, store', first, second)
    requires NodesOk(store') && NodesDistinct(store') && AtomsPlaced(store')
    ensures IsTree(store', root)
  {
    hide Edge, NodeOk, Distinct, IsDepth;
    var depth :| IsDepth(store, root, depth);
    DepthJoins(store, store', root, parent, first, second, depth);
  }

  // ----- parents and subtrees

  lemma EdgeIsChildOrAtom(store: Store, p: NodeId, c: NodeId)
    ensures ChildEdge(store, p, c) ==> Edge(store, p, c)
    ensures Edge(store, p, c) && store[p].content.Children? ==> ChildEdge(store, p, c)
  {}

  // The node and everything below it.
  ghost function Subtree(store: Store, x: NodeId): set<NodeId> {
    set y | y in store && Reaches(store, x, y)
  }

  // Descendants are exactly the smallest closed set holding the node.
  lemma {:induction false} SubtreeClosed(store: Store, x: NodeId)
    requires x in store && EdgesClosed(store)
    ensures x in Subtree(store, x)
    ensures forall p, c :: p in Subtree(store, x) && Edge(store, p, c) ==> c in Subtree(store, x)
  {
    hide Edge;
    ReachesSelf(store, x);
    forall p, c | p in Subtree(store, x) && Edge(store, p, c)
      ensures c in Subtree(store, x)
    {
      ReachesStep(store, x, p, c);
    }
  }

  lemma {:induction false} SubtreeSmallest(store: Store, x: NodeId, s: set<NodeId>)
    requires x in s && forall p, c :: p in s && Edge(store, p, c) ==> c in s
    ensures Subtree(store, x) <= s
  {
    hide Edge;
    forall y | y in Subtree(store, x)
      ensures y in s
    {
      var path :| PathFromTo(store, path, x, y);
      ReachableInClosed(store, path, x, y, s);
    }
  }

  // Going down increases the depth.
  lemma {:induction false} PathDepth(store: Store, root: NodeId, depth: map<NodeId, nat>, path: seq<NodeId>,
                                     from: NodeId, to: NodeId)
    requires IsDepth(store, root, depth) && EdgesClosed(store) && from in store && PathFromTo(store, path, from, to)
    ensures to in store && depth[to] == depth[from] + |path| - 1
    decreases |path|
  {
    hide Distinct;
    if |path| > 1 {
      var n := |path| - 1;
      assert PathFromTo(store, path[..n], from, path[n - 1]);
      PathDepth(store, root, depth, path[..n], from, path[n - 1]);
      assert Edge(store, path[n - 1], path[n]);
    }
  }

  // A parent is not below its child, and the root is below nothing else.
  lemma {:induction false} ParentOutsideSubtree(store: Store, root: NodeId, parent: NodeId, x: NodeId)
    requires IsTree(store, root) && Edge(store, parent, x)
    ensures parent !in Subtree(store, x) && root !in Subtree(store, x) && x in store
  {
    hide Edge, NodeOk, Distinct, IsDepth, EdgesClosed;
    EdgeParentStored(store);
    assert x in store by { EdgeChildStored(store, parent, x); }
    var depth :| IsDepth(store, root, depth);
    if parent in Subtree(store, x) {
      var path :| PathFromTo(store, path, x, parent);
      PathDepth(store, root, depth, path, x, parent);
      ParentDepth(store, root, depth, parent, x);
    }
    if root in Subtree(store, x) {
      var path :| PathFromTo(store, path, x, root);
      LastEdge(store, path, x, root);
    }
  }

  lemma EdgeChildStored(store: Store, p: NodeId, c: NodeId)
    requires EdgesClosed(store) && Edge(store, p, c)
    ensures c in store
  {}

  lemma ParentDepth(store: Store, root: NodeId, depth: map<NodeId, nat>, p: NodeId, c: NodeId)
    requires IsDepth(store, root, depth) && Edge(store, p, c) && c in store
    ensures p in store && p in depth && c in depth && depth[c] == depth[p] + 1
  {}

  lemma PrefixReaches(store: Store, path: seq<NodeId>, from: NodeId, to: NodeId)
    requires PathFromTo(store, path, from, to)
    ensures |path| > 1 ==> Reaches(store, from, path[|path| - 2])
  {
    if |path| > 1 {
      var n := |path| - 1;
      assert PathFromTo(store, path[..n], from, path[n - 1]);
    }
  }

  // A node outside a subtree does not refer into it, except a parent to its top.
  lemma {:induction false} EdgeIntoSubtree(store: Store, root: NodeId, x: NodeId, p: NodeId, c: NodeId)
    requires IsTree(store, root) && x in store && p !in Subtree(store, x) && Edge(store, p, c) && c in Subtree(store, x)
    ensures c == x
  {
    hide Edge, NodeOk, Distinct;
    EdgeParentStored(store);
    var path :| PathFromTo(store, path, x, c);
    LastEdge(store, path, x, c);
    PrefixReaches(store, path, x, c);
  }
}
