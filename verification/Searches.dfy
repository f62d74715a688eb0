// Breadth-first searches over the working tree
// (crates/xiaomu-core/src/transaction/apply.rs, document/snapshot.rs).
module Searches {
  import opened Wrappers
  import opened Content
  import opened Nodes
  import opened Tree
  import opened Apply
  import opened UndoTree

  // ----- structural parents

  // Nodes still queued and nodes already expanded, from the root down.
  ghost predicate Frontier(nodes: Store, root: NodeId, queue: seq<NodeId>, done: set<NodeId>) {
    && Distinct(queue) && done <= nodes.Keys
    && (forall x :: x in queue ==> x in nodes && x !in done)
    && (root in queue || root in done)
    && (forall x :: (x in queue || x in done) && x != root ==> exists q :: q in done && ChildEdge(nodes, q, x))
    && (forall p, c :: p in done && ChildEdge(nodes, p, c) ==> c in queue || c in done)
  }

  function ChildList(node: Node): seq<NodeId> {
    if node.content.Children? then node.content.children else []
  }

  lemma {:induction false} NewChildren(nodes: Store, root: NodeId, queue: seq<NodeId>, done: set<NodeId>, c: NodeId)
    requires IsTree(nodes, root) && Frontier(nodes, root, queue, done) && queue != []
    requires ChildEdge(nodes, queue[0], c)
    ensures c in nodes && c !in done && c !in queue
  {
    hide Distinct;
    ParentIs(nodes, root, queue[0], c);
    assert queue[0] in queue;
    forall q | q in done && ChildEdge(nodes, q, c)
      ensures false
    {
      ParentIs(nodes, root, q, c);
    }
  }

  lemma DistinctConcat(a: seq<NodeId>, b: seq<NodeId>)
    requires Distinct(a) && Distinct(b) && forall x :: x in b ==> x !in a
    ensures Distinct(a + b)
  {
    var s := a + b;
    forall i, j | 0 <= i < j < |s|
      ensures s[i] != s[j]
    {
      if i < |a| && j >= |a| {
        assert s[i] in a && b[j - |a|] in b;
      }
    }
  }

  lemma {:induction false} FrontierStep(nodes: Store, root: NodeId, queue: seq<NodeId>, done: set<NodeId>)
    requires IsTree(nodes, root) && Frontier(nodes, root, queue, done) && queue != []
    ensures queue[0] in nodes && queue[0] !in done
    ensures Frontier(nodes, root, queue[1..] + ChildList(nodes[queue[0]]), done + {queue[0]})
  {
    hide IsTree, Distinct, ChildList, ChildEdge;
    var current := queue[0];
    assert current in queue;
    var children := ChildList(nodes[current]);
    ChildListDistinct(nodes, root, current);
    DistinctTails(queue);
    forall c | c in children
      ensures c in nodes && c !in done && c !in queue
    {
      NewChildren(nodes, root, queue, done, c);
    }
    assert queue == [current] + queue[1..];
    DistinctConcat(queue[1..], children);
    var queue', done' := queue[1..] + children, done + {current};
    assert forall x :: x in queue' || x in done' <==> x in queue || x in done || x in children;
    forall x | (x in queue' || x in done') && x != root
      ensures exists q :: q in done' && ChildEdge(nodes, q, x)
    {
      if x in children {
        assert ChildEdge(nodes, current, x);
      }
    }
  }

  lemma ChildListDistinct(nodes: Store, root: NodeId, p: NodeId)
    requires IsTree(nodes, root) && p in nodes
    ensures Distinct(ChildList(nodes[p]))
    ensures forall c :: c in ChildList(nodes[p]) <==> ChildEdge(nodes, p, c)
  {
    hide IsTree, Distinct;
    if nodes[p].content.Children? {
      ChildrenDistinct(nodes, root, p);
    } else {
      NoneAreDistinct(ChildList(nodes[p]));
    }
  }

  lemma DistinctTails(ids: seq<NodeId>)
    requires Distinct(ids) && ids != []
    ensures Distinct(ids[1..]) && ids[0] !in ids[1..]
  {}

  lemma NoneAreDistinct(ids: seq<NodeId>)
    requires ids == []
    ensures Distinct(ids)
  {}

  lemma RootFrontier(nodes: Store, root: NodeId)
    requires root in nodes
    ensures Frontier(nodes, root, [root], {})
  {}

  // Once the queue is empty every node with children has been expanded: inline
  // nodes place atoms only, and atoms have no children.
  lemma {:induction false} AllExpanded(nodes: Store, root: NodeId, done: set<NodeId>, depth: map<NodeId, nat>,
                                       p: NodeId)
    requires IsTree(nodes, root) && IsDepth(nodes, root, depth) && Frontier(nodes, root, [], done)
    requires p in nodes && nodes[p].content.Children?
    ensures p in done
    decreases depth[p]
  {
    hide Distinct;
    if p != root {
      var q :| Edge(nodes, q, p);
      ContentfulParent(nodes, root, q, p);
      AllExpanded(nodes, root, done, depth, q);
    }
  }

  lemma ContentfulParent(nodes: Store, root: NodeId, q: NodeId, p: NodeId)
    requires IsTree(nodes, root) && Edge(nodes, q, p) && nodes[p].content.Children?
    ensures q in nodes && ChildEdge(nodes, q, p)
  {
    hide Distinct, IsDepth, WfContent;
    assert NodeOk(nodes[p]);
  }

  lemma {:induction false} NoParentLeft(nodes: Store, root: NodeId, done: set<NodeId>, target: NodeId)
    requires IsTree(nodes, root) && Frontier(nodes, root, [], done)
    requires forall p :: p in done ==> !ChildEdge(nodes, p, target)
    ensures ParentOf(nodes, target) == Err(UnknownNode)
  {
    hide Distinct, NodeOk, IsDepth;
    var depth :| IsDepth(nodes, root, depth);
    forall p | ChildEdge(nodes, p, target)
      ensures false
    {
      AllExpanded(nodes, root, done, depth, p);
    }
  }

  // `find_parent`.
  method FindParent(nodes: Store, root: NodeId, target: NodeId) returns (r: Result<NodeId>)
    requires IsTree(nodes, root)
    ensures r == ParentOf(nodes, target)
  {
    hide IsTree, Frontier, ParentOf, Distinct;
    RootStored(nodes, root);
    var queue := [root];
    ghost var done: set<NodeId> := {};
    RootFrontier(nodes, root);
    while queue != []
      invariant Frontier(nodes, root, queue, done)
      invariant forall p :: p in done ==> !ChildEdge(nodes, p, target)
      invariant done <= nodes.Keys
      decreases nodes.Keys - done
    {
      var current := queue[0];
      FrontierStep(nodes, root, queue, done);
      queue := queue[1..];
      done := done + {current};
      var children := ChildrenOf(nodes, current);
      if children.Err? {
        assert queue + ChildList(nodes[current]) == queue;
        continue;
      }
      if target in children.value {
        ParentIs(nodes, root, current, target);
        return Ok(current);
      }
      queue := queue + children.value;
    }
    NoParentLeft(nodes, root, done, target);
    return Err(UnknownNode);
  }

  // ----- subtrees

  // `collected` holds what is queued or expanded, all reachable from `target`.
  ghost predicate Collecting(nodes: Store, target: NodeId, collected: set<NodeId>, queue: seq<NodeId>,
                             done: set<NodeId>) {
    && target in collected && collected <= nodes.Keys
    && Distinct(queue) && (forall x :: x in queue ==> x !in done) && done <= collected
    && (forall x :: x in collected <==> x in queue || x in done)
    && (forall x :: x in collected ==> Reaches(nodes, target, x))
    && (forall p, c :: p in done && Edge(nodes, p, c) ==> c in collected)
  }

  // Adding one edge's target leaves the rest of the node's edges to be added.
  ghost predicate Expanding(nodes: Store, target: NodeId, collected: set<NodeId>, queue: seq<NodeId>,
                            done: set<NodeId>, current: NodeId) {
    && target in collected && collected <= nodes.Keys && current in collected && current !in done && current !in queue
    && Distinct(queue) && (forall x :: x in queue ==> x !in done) && done <= collected
    && (forall x :: x in collected <==> x in queue || x in done || x == current)
    && (forall x :: x in collected ==> Reaches(nodes, target, x))
    && (forall p, c :: p in done && Edge(nodes, p, c) ==> c in collected)
  }

  // One of the enqueueing loops over a node's references.
  method Enqueue(nodes: Store, target: NodeId, collected0: set<NodeId>, queue0: seq<NodeId>, ghost done: set<NodeId>,
                 current: NodeId, references: seq<NodeId>)
      returns (collected: set<NodeId>, queue: seq<NodeId>)
    requires EdgesClosed(nodes) && Expanding(nodes, target, collected0, queue0, done, current)
    requires forall c :: c in references ==> Edge(nodes, current, c)
    ensures Expanding(nodes, target, collected, queue, done, current)
    ensures forall c :: c in references ==> c in collected
  {
    hide Edge, Reaches;
    collected, queue := collected0, queue0;
    for i := 0 to |references|
      invariant Expanding(nodes, target, collected, queue, done, current)
      invariant forall j :: 0 <= j < i ==> references[j] in collected
    {
      var child := references[i];
      if child !in collected {
        assert child in references;
        EdgeChildStored(nodes, current, child);
        ReachesStep(nodes, target, current, child);
        assert child !in queue;
        collected := collected + {child};
        queue := queue + [child];
      }
    }
  }

  // `collect_subtree` on a stored node.
  method CollectSubtree(nodes: Store, target: NodeId) returns (collected: set<NodeId>)
    requires EdgesClosed(nodes) && target in nodes
    ensures collected == Subtree(nodes, target)
  {
    hide EdgesClosed, Reaches, Edge;
    collected := {target};
    var queue := [target];
    ghost var done: set<NodeId> := {};
    ReachesSelf(nodes, target);
    while queue != []
      invariant Collecting(nodes, target, collected, queue, done)
      decreases nodes.Keys - done
    {
      var current := queue[0];
      assert current in queue;
      DistinctTails(queue);
      assert queue == [current] + queue[1..];
      queue := queue[1..];
      EdgesAreReferences(nodes, current);
      if nodes[current].content.Children? {
        collected, queue := Enqueue(nodes, target, collected, queue, done, current, nodes[current].content.children);
      }
      if nodes[current].content.Inline? {
        collected, queue := Enqueue(nodes, target, collected, queue, done, current,
            Identities(nodes[current].content.inline.atoms));
      }
      done := done + {current};
    }
    SubtreeSmallest(nodes, target, collected);
  }

  lemma EdgesAreReferences(nodes: Store, p: NodeId)
    requires p in nodes
    ensures forall c :: Edge(nodes, p, c) <==>
      (nodes[p].content.Children? && c in nodes[p].content.children)
      || (nodes[p].content.Inline? && c in Identities(nodes[p].content.inline.atoms))
  {}

  // ----- atoms

  // `find_inline_atom_parent`: the owning node, the placement's index, and its ordinal.
  method FindInlineAtomParent(nodes: Store, root: NodeId,
                              atom: NodeId) returns (r: Result<(NodeId, nat, Placement, nat)>)
    requires IsTree(nodes, root)
    ensures r.Err? ==> r.error == UnknownNode && AtomParentOf(nodes, atom) == Err(UnknownNode)
    ensures r.Ok? ==> var (parent, j, placement, ordinal) := r.value;
      && AtomParentOf(nodes, atom) == Ok(parent) && parent in nodes && nodes[parent].content.Inline?
      && j < |nodes[parent].content.inline.atoms| && nodes[parent].content.inline.atoms[j] == placement
      && PositionOf(Identities(nodes[parent].content.inline.atoms), atom) == Some(j)
      && ordinal == CountAt(nodes[parent].content.inline.atoms[..j], placement.offset)
  {
    hide IsTree, AtomParentOf, PositionOf, CountAt, Edge;
    var ids := SortedIds(nodes.Keys);
    for i := 0 to |ids|
      invariant forall k :: 0 <= k < i ==> !PlacesAtom(nodes, ids[k], atom)
    {
      var parent := ids[i];
      assert parent in ids;
      EdgesAreReferences(nodes, parent);
      if !nodes[parent].content.Inline? {
        continue;
      }
      var atoms := nodes[parent].content.inline.atoms;
      var found := FindPlacement(atoms, atom);
      if found.None? {
        continue;
      }
      var j := found.value;
      assert Identities(atoms)[j] in Identities(atoms);
      AtomParentIs(nodes, root, parent, atom);
      var ordinal := AtomCountAt(atoms[..j], atoms[j].offset);
      return Ok((parent, j, atoms[j], ordinal));
    }
    NotPlaced(nodes, atom, ids);
    return Err(UnknownNode);
  }

  lemma NotPlaced(nodes: Store, atom: NodeId, ids: seq<NodeId>)
    requires forall x :: x in ids <==> x in nodes
    requires forall k :: 0 <= k < |ids| ==> !PlacesAtom(nodes, ids[k], atom)
    ensures AtomParentOf(nodes, atom) == Err(UnknownNode)
  {
    hide Edge;
    forall p
      ensures !PlacesAtom(nodes, p, atom)
    {
      assert p in nodes ==> p in ids;
    }
  }

  method FindPlacement(atoms: seq<Placement>, atom: NodeId) returns (r: Option<nat>)
    ensures r == PositionOf(Identities(atoms), atom)
    ensures r.None? ==> atom !in Identities(atoms)
    ensures r.Some? ==> r.value < |atoms| && atoms[r.value].atom == atom
  {
    hide PositionOf;
    for i := 0 to |atoms|
      invariant forall k :: 0 <= k < i ==> atoms[k].atom != atom
    {
      if atoms[i].atom == atom {
        PositionIs(Identities(atoms), atom, i);
        return Some(i);
      }
    }
    PositionAbsent(Identities(atoms), atom);
    return None;
  }

  lemma PositionAbsent(ids: seq<NodeId>, id: NodeId)
    requires id !in ids
    ensures PositionOf(ids, id) == None
  {}
}
