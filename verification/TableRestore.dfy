// Parent capture for table undo
// (crates/xiaomu-core/src/transaction/table_restore.rs).
module TableRestore {
  import opened Wrappers
  import opened Content
  import opened Nodes
  import opened Tree
  import opened WorkingStore
  import opened Apply
  import opened UndoTree
  import opened Searches

  // What the table reaches is stored, and a tree below the table.
  ghost predicate TreeBelow(view: Store, table: NodeId) {
    && table in view && view[table].kind.Table?
    && (forall x :: Reaches(view, table, x) ==> x in view && Distinct(References(view[x])) && !Edge(view, x, table))
    && (forall p, q, c ::
      Reaches(view, table, p) && Reaches(view, table, q) && Edge(view, p, c) && Edge(view, q, c) ==> p == q)
  }

  // The recorded edges: those of the expected nodes and of their ancestors, up
  // to the table.
  ghost predicate Recorded(view: Store, table: NodeId, expected: seq<Node>, edges: map<NodeId, NodeId>) {
    && table !in edges
    && (forall c :: c in edges ==> Reaches(view, table, edges[c]) && Edge(view, edges[c], c))
    && (forall c :: c in edges ==> edges[c] == table || edges[c] in edges)
    && (forall i :: 0 <= i < |expected| ==> expected[i].id == table || expected[i].id in edges)
    && (forall c :: c in edges ==> exists i :: 0 <= i < |expected| && Reaches(view, c, expected[i].id))
  }

  // ----- the search below the table

  ghost predicate Searching(view: Store, table: NodeId, seen: set<NodeId>, queue: seq<NodeId>, done: set<NodeId>,
                            parents: map<NodeId, NodeId>, depth: map<NodeId, nat>) {
    && table in seen && done <= view.Keys && Distinct(queue)
    && (forall x :: x in seen <==> x in queue || x in done) && (forall x :: x in queue ==> x !in done)
    && (forall x :: x in seen ==> Reaches(view, table, x) && x in depth)
    && (forall x :: x in parents <==> x in seen && x != table)
    && (forall c :: c in parents ==> parents[c] in done && Edge(view, parents[c], c) && parents[c] in depth
                                     && depth[parents[c]] < depth[c])
    && (forall p, c :: p in done && Edge(view, p, c) ==> c in parents && parents[c] == p)
    && (forall p :: p in done ==> Distinct(References(view[p])))
  }

  // While one node's references are being added.
  ghost predicate Adding(view: Store, table: NodeId, seen: set<NodeId>, queue: seq<NodeId>, done: set<NodeId>,
                         parents: map<NodeId, NodeId>, depth: map<NodeId, nat>, current: NodeId) {
    && table in seen && done <= view.Keys && Distinct(queue) && current in view && current !in done && current !in queue
    && (forall x :: x in seen <==> x in queue || x in done || x == current) && (forall x :: x in queue ==> x !in done)
    && (forall x :: x in seen ==> Reaches(view, table, x) && x in depth)
    && (forall x :: x in parents <==> x in seen && x != table)
    && (forall c :: c in parents ==> (parents[c] in done || parents[c] == current) && Edge(view, parents[c], c)
                                     && parents[c] in depth && depth[parents[c]] < depth[c])
    && (forall p, c :: p in done && Edge(view, p, c) ==> c in parents && parents[c] == p)
    && (forall p :: p in done ==> Distinct(References(view[p])))
  }

  lemma {:induction false} SearchBegins(view: Store, table: NodeId)
    ensures Searching(view, table, {table}, [table], {}, map[], map[table := 0])
  {
    ReachesSelf(view, table);
  }

  lemma {:induction false} TakeNext(view: Store, table: NodeId, seen: set<NodeId>, queue: seq<NodeId>,
                                    done: set<NodeId>, parents: map<NodeId, NodeId>, depth: map<NodeId, nat>)
    requires Searching(view, table, seen, queue, done, parents, depth) && queue != []
    ensures queue[0] !in done && Reaches(view, table, queue[0])
    ensures queue[0] in view ==> Adding(view, table, seen, queue[1..], done, parents, depth, queue[0])
  {
    hide Reaches, Edge, Distinct, References;
    assert queue == [queue[0]] + queue[1..];
    assert queue[0] in queue;
    DistinctTails(queue);
  }

  lemma {:induction false} AddOne(view: Store, table: NodeId, seen: set<NodeId>, queue: seq<NodeId>, done: set<NodeId>,
                                  parents: map<NodeId, NodeId>, depth: map<NodeId, nat>, current: NodeId, child: NodeId)
    requires Adding(view, table, seen, queue, done, parents, depth, current) && Edge(view, current, child)
      && child !in seen
    requires current in seen
    ensures current in depth
    ensures Adding(view, table, seen + {child}, queue + [child], done, parents[child := current],
        depth[child := depth[current] + 1], current)
  {
    hide Reaches, Edge, Distinct, References;
    ReachesStep(view, table, current, child);
    DistinctPush(queue, child);
  }

  lemma DistinctPush(ids: seq<NodeId>, id: NodeId)
    requires Distinct(ids) && id !in ids
    ensures Distinct(ids + [id])
  {}

  lemma {:induction false} AddedAll(view: Store, table: NodeId, seen: set<NodeId>, queue: seq<NodeId>,
                                    done: set<NodeId>,
                                    parents: map<NodeId, NodeId>, depth: map<NodeId, nat>, current: NodeId)
    requires Adding(view, table, seen, queue, done, parents, depth, current) && current in seen
    requires Distinct(References(view[current]))
    requires forall c :: Edge(view, current, c) ==> c in parents && parents[c] == current
    ensures Searching(view, table, seen, queue, done + {current}, parents, depth)
  {
    hide Reaches, Edge, Distinct, References;
  }

  // A reference to a node seen before refutes the tree: it is the table, or has
  // another parent, or is listed twice.
  lemma {:induction false} SeenTwice(view: Store, table: NodeId, seen: set<NodeId>, queue: seq<NodeId>,
                                     done: set<NodeId>,
                                     parents: map<NodeId, NodeId>, depth: map<NodeId, nat>, current: NodeId, k: nat)
    requires Adding(view, table, seen, queue, done, parents, depth, current) && current in seen
    requires k < |References(view[current])| && References(view[current])[k] in seen
    requires forall c :: c in parents && parents[c] == current ==> c in References(view[current])[..k]
    ensures !TreeBelow(view, table)
  {
    hide Reaches, References;
    var c := References(view[current])[k];
    assert Edge(view, current, c);
    if c != table {
      assert Edge(view, parents[c], c);
      if parents[c] == current {
        ListedTwice(References(view[current]), k);
      }
    }
  }

  lemma ListedTwice(ids: seq<NodeId>, k: nat)
    requires k < |ids| && ids[k] in ids[..k]
    ensures !Distinct(ids)
  {
    var j :| 0 <= j < k && ids[..k][j] == ids[k];
    assert ids[j] == ids[k];
  }

  lemma {:induction false} SearchEnds(view: Store, table: NodeId, seen: set<NodeId>, done: set<NodeId>,
                                      parents: map<NodeId, NodeId>, depth: map<NodeId, nat>)
    requires Searching(view, table, seen, [], done, parents, depth) && table in view && view[table].kind.Table?
    ensures TreeBelow(view, table)
    ensures forall x :: Reaches(view, table, x) <==> x == table || x in parents
  {
    hide Edge, Distinct, References;
    forall x | Reaches(view, table, x)
      ensures x in done
    {
      var path :| PathFromTo(view, path, table, x);
      ReachableInClosed(view, path, table, x, done);
    }
  }

  // A tree holds every node it reaches.
  lemma MissingNode(view: Store, table: NodeId, x: NodeId)
    requires Reaches(view, table, x) && x !in view
    ensures !TreeBelow(view, table)
  {
    hide Reaches, Edge, Distinct;
  }

  // The loop over a node's children and atoms.
  method AddReferences(view: Store, table: NodeId, seen0: set<NodeId>, queue0: seq<NodeId>, ghost done: set<NodeId>,
                       parents0: map<NodeId, NodeId>, ghost depth0: map<NodeId, nat>, current: NodeId)
      returns (ok: bool, seen: set<NodeId>, queue: seq<NodeId>, parents: map<NodeId, NodeId>,
          ghost depth: map<NodeId, nat>)
    requires Adding(view, table, seen0, queue0, done, parents0, depth0, current) && current in seen0
    requires forall c :: c in parents0 ==> parents0[c] != current
    ensures ok ==> Searching(view, table, seen, queue, done + {current}, parents, depth)
    ensures !ok ==> !TreeBelow(view, table)
  {
    hide Adding, Searching, References, TreeBelow, Edge, Distinct;
    seen, queue, parents, depth := seen0, queue0, parents0, depth0;
    assert current in view by { AddingStored(view, table, seen0, queue0, done, parents0, depth0, current); }
    var references := References(view[current]);
    EdgesUnfold(view, current);
    DistinctNone();
    assert references[..0] == [];
    for k := 0 to |references|
      invariant Adding(view, table, seen, queue, done, parents, depth, current) && current in seen
      invariant forall c :: c in parents && parents[c] == current <==> c in references[..k]
      invariant Distinct(references[..k])
    {
      var child := references[k];
      assert child in references;
      if child in seen {
        SeenTwice(view, table, seen, queue, done, parents, depth, current, k);
        return false, seen, queue, parents, depth;
      }
      assert references[..k + 1] == references[..k] + [child];
      AddOne(view, table, seen, queue, done, parents, depth, current, child);
      AddingParents(view, table, seen, queue, done, parents, depth, current);
      DistinctPush(references[..k], child);
      seen := seen + {child};
      queue := queue + [child];
      depth := depth[child := depth[current] + 1];
      parents := parents[child := current];
    }
    assert references[..|references|] == references;
    AddedAll(view, table, seen, queue, done, parents, depth, current);
    ok := true;
  }

  lemma DistinctNone()
    ensures Distinct<NodeId>([])
  {}

  lemma AddingStored(view: Store, table: NodeId, seen: set<NodeId>, queue: seq<NodeId>, done: set<NodeId>,
                     parents: map<NodeId, NodeId>, depth: map<NodeId, nat>, current: NodeId)
    requires Adding(view, table, seen, queue, done, parents, depth, current)
    ensures current in view
  {
    hide Reaches, Edge, Distinct;
  }

  lemma AddingParents(view: Store, table: NodeId, seen: set<NodeId>, queue: seq<NodeId>, done: set<NodeId>,
                      parents: map<NodeId, NodeId>, depth: map<NodeId, nat>, current: NodeId)
    requires Adding(view, table, seen, queue, done, parents, depth, current)
    ensures forall c :: c in parents ==> c in seen
  {
    hide Reaches, Edge, Distinct;
  }

  // The breadth-first pass: every node below the table with its parent.
  method ParentsBelow(view: Store, table: NodeId) returns (r: Result<map<NodeId, NodeId>>, ghost depth: map<NodeId,
                      nat>)
    requires table in view && view[table].kind.Table?
    ensures r.Ok? <==> TreeBelow(view, table)
    ensures r.Ok? ==> ParentMap(view, table, r.value, depth)
  {
    hide Searching, Adding, TreeBelow, Reaches, ParentMap;
    var parents: map<NodeId, NodeId> := map[];
    var seen := {table};
    var pending := [table];
    ghost var done: set<NodeId> := {};
    depth := map[table := 0];
    SearchBegins(view, table);
    while pending != []
      invariant Searching(view, table, seen, pending, done, parents, depth)
      invariant done <= view.Keys
      decreases view.Keys - done
    {
      var parent := pending[0];
      TakeNext(view, table, seen, pending, done, parents, depth);
      if parent !in view {
        MissingNode(view, table, parent);
        return Err(UnknownNode), depth;
      }
      NotYetParent(view, table, seen, pending, done, parents, depth);
      var ok, seen', pending', parents',
          depth' := AddReferences(view, table, seen, pending[1..], done, parents, depth, parent);
      if !ok {
        return Err(InvalidTransaction), depth;
      }
      seen, pending, parents, depth := seen', pending', parents', depth';
      done := done + {parent};
    }
    SearchEnds(view, table, seen, done, parents, depth);
    MapOf(view, table, seen, done, parents, depth);
    return Ok(parents), depth;
  }

  // Every node below the table with its one parent, one level up.
  ghost predicate ParentMap(view: Store, table: NodeId, parents: map<NodeId, NodeId>, depth: map<NodeId, nat>) {
    && table !in parents
    && (forall x :: Reaches(view, table, x) <==> x == table || x in parents)
    && (forall c :: c in parents ==> Edge(view, parents[c], c) && (parents[c] == table || parents[c] in parents)
                                     && c in depth && parents[c] in depth && depth[parents[c]] < depth[c])
  }

  lemma NotYetParent(view: Store, table: NodeId, seen: set<NodeId>, queue: seq<NodeId>, done: set<NodeId>,
                     parents: map<NodeId, NodeId>, depth: map<NodeId, nat>)
    requires Searching(view, table, seen, queue, done, parents, depth) && queue != []
    ensures queue[0] in seen && forall c :: c in parents ==> parents[c] != queue[0]
  {
    hide Reaches, Edge, Distinct;
    assert queue[0] in queue;
  }

  lemma MapOf(view: Store, table: NodeId, seen: set<NodeId>, done: set<NodeId>, parents: map<NodeId, NodeId>,
              depth: map<NodeId, nat>)
    requires Searching(view, table, seen, [], done, parents, depth)
    requires forall x :: Reaches(view, table, x) <==> x == table || x in parents
    ensures ParentMap(view, table, parents, depth)
  {
    hide Reaches, Edge, Distinct;
  }

  lemma ReachesAbove(view: Store, p: NodeId, c: NodeId, z: NodeId)
    requires Edge(view, p, c) && Reaches(view, c, z)
    ensures Reaches(view, p, z)
  {
    hide Edge;
    var path :| PathFromTo(view, path, c, z);
    assert PathFromTo(view, [p] + path, p, z);
  }

  // ----- the ancestor closure

  // Recorded edges for the first `n` payloads; `open` is the node whose edge is
  // still to be recorded.
  ghost predicate Climbing(view: Store, table: NodeId, expected: seq<Node>, n: nat, parents: map<NodeId, NodeId>,
                           relevant: map<NodeId, NodeId>, open: NodeId) {
    && n <= |expected| && table !in relevant
    && (forall c :: c in relevant ==> c in parents && relevant[c] == parents[c])
    && (forall c :: c in relevant ==> relevant[c] == table || relevant[c] in relevant || relevant[c] == open)
    && (forall i :: 0 <= i < n ==> expected[i].id == table || expected[i].id in relevant || expected[i].id == open)
    && (forall c :: c in relevant ==> exists i :: 0 <= i < |expected| && Reaches(view, c, expected[i].id))
  }

  // The ancestor walk of one payload.
  method Climb(view: Store, table: NodeId, expected: seq<Node>, n: nat, parents: map<NodeId, NodeId>,
               ghost depth: map<NodeId, nat>,
               relevant0: map<NodeId, NodeId>) returns (ok: bool, relevant: map<NodeId, NodeId>)
    requires ParentMap(view, table, parents, depth) && n < |expected|
    requires Climbing(view, table, expected, n, parents, relevant0, table)
    ensures ok <==> Reaches(view, table, expected[n].id)
    ensures ok ==> Climbing(view, table, expected, n + 1, parents, relevant, table)
  {
    hide Reaches, Edge;
    relevant := relevant0;
    var child := expected[n].id;
    ReachesSelf(view, child);
    if child == table {
      ReachesSelf(view, table);
      return true, relevant;
    }
    // Parents of listed nodes are listed, so only the first look-up can fail.
    if child !in parents {
      ChainBroken(view, table, expected, n, parents, depth, relevant);
      return false, relevant;
    }
    while child != table && child !in relevant
      invariant child == table || child in parents
      invariant Climbing(view, table, expected, n + 1, parents, relevant, child)
      invariant Reaches(view, child, expected[n].id)
      decreases if child == table then 0 else depth[child] + 1
    {
      var parent := parents[child];
      ReachesAbove(view, parent, child, expected[n].id);
      relevant := relevant[child := parent];
      child := parent;
    }
    ok := true;
  }

  lemma ChainBroken(view: Store, table: NodeId, expected: seq<Node>, n: nat, parents: map<NodeId, NodeId>,
                    depth: map<NodeId, nat>, relevant: map<NodeId, NodeId>)
    requires ParentMap(view, table, parents, depth) && n < |expected| && expected[n].id != table
      && expected[n].id !in parents
    ensures !Reaches(view, table, expected[n].id)
  {
    hide Reaches, Edge;
  }

  // `expected_parents_from`.
  method ExpectedParentsFrom(view: Store, table: NodeId, expected: seq<Node>) returns (r: Result<map<NodeId, NodeId>>)
    ensures r.Ok? <==> TreeBelow(view, table) && forall i :: 0 <= i < |expected| ==>
      Reaches(view, table, expected[i].id)
    ensures r.Ok? ==> Recorded(view, table, expected, r.value)
  {
    hide TreeBelow, Reaches, ParentMap, Climbing, Recorded;
    if table !in view {
      NoTable(view, table);
      return Err(UnknownNode);
    }
    if !view[table].kind.Table? {
      NoTable(view, table);
      return Err(InvalidTableStructure);
    }
    var below, depth := ParentsBelow(view, table);
    if below.Err? {
      return below;
    }
    var parents := below.value;
    var relevant: map<NodeId, NodeId> := map[];
    ClimbStarts(view, table, expected, parents);
    for n := 0 to |expected|
      invariant Climbing(view, table, expected, n, parents, relevant, table)
      invariant forall i :: 0 <= i < n ==> Reaches(view, table, expected[i].id)
    {
      var ok, more := Climb(view, table, expected, n, parents, depth, relevant);
      if !ok {
        return Err(InvalidTransaction);
      }
      relevant := more;
    }
    ClimbEnds(view, table, expected, parents, depth, relevant);
    return Ok(relevant);
  }

  lemma NoTable(view: Store, table: NodeId)
    requires table !in view || !view[table].kind.Table?
    ensures !TreeBelow(view, table)
  {
    hide Reaches, Edge, Distinct;
  }

  lemma ClimbStarts(view: Store, table: NodeId, expected: seq<Node>, parents: map<NodeId, NodeId>)
    ensures Climbing(view, table, expected, 0, parents, map[], table)
  {}

  lemma ClimbEnds(view: Store, table: NodeId, expected: seq<Node>, parents: map<NodeId, NodeId>, depth: map<NodeId,
                  nat>,
                  relevant: map<NodeId, NodeId>)
    requires ParentMap(view, table, parents, depth)
      && Climbing(view, table, expected, |expected|, parents, relevant, table)
    ensures Recorded(view, table, expected, relevant)
  {
    hide Reaches, Edge;
    ReachesSelf(view, table);
  }

  // ----- the record is determined, and its chains end at the table

  lemma {:induction false} NothingAboveTable(view: Store, table: NodeId, path: seq<NodeId>, c: NodeId)
    requires TreeBelow(view, table) && Reaches(view, table, c) && PathFromTo(view, path, c, table)
    ensures c == table
  {
    hide Edge, Distinct;
    if |path| > 1 {
      var k := |path| - 2;
      assert PathFromTo(view, path[..k + 1], c, path[k]);
      ReachesOn(view, table, c, path[k]);
      LastEdge(view, path, c, table);
    }
  }

  lemma {:induction false} ReachesOn(view: Store, x: NodeId, y: NodeId, z: NodeId)
    requires Reaches(view, x, y) && Reaches(view, y, z)
    ensures Reaches(view, x, z)
  {
    hide Edge;
    var a :| PathFromTo(view, a, x, y);
    var b :| PathFromTo(view, b, y, z);
    var path := a + b[1..];
    forall i | 0 < i < |path|
      ensures Edge(view, path[i - 1], path[i])
    {
      if i >= |a| {
        assert path[i] == b[i - |a| + 1] && path[i - 1] == b[i - |a|];
      }
    }
    assert PathFromTo(view, path, x, z);
  }

  lemma PathFront(view: Store, path: seq<NodeId>, from: NodeId, to: NodeId)
    requires PathFromTo(view, path, from, to) && |path| > 1
    ensures PathFromTo(view, path[..|path| - 1], from, path[|path| - 2])
  {
    hide Edge;
  }

  lemma LongPath(view: Store, path: seq<NodeId>, from: NodeId, to: NodeId)
    requires PathFromTo(view, path, from, to)
    ensures |path| > 0 && (|path| == 1 ==> from == to)
  {}

  lemma PathReaches(view: Store, path: seq<NodeId>, from: NodeId, to: NodeId)
    requires PathFromTo(view, path, from, to)
    ensures Reaches(view, from, to)
  {
    hide PathFromTo;
  }

  // A recorded node's edge is its one parent.
  lemma RecordedEdge(view: Store, table: NodeId, expected: seq<Node>, edges: map<NodeId, NodeId>, p: NodeId, c: NodeId)
    requires TreeBelow(view, table) && Recorded(view, table, expected, edges) && c in edges
    requires Edge(view, p, c) && Reaches(view, table, p)
    ensures edges[c] == p
  {
    hide Edge, Distinct, Reaches;
  }

  lemma RecordedUp(view: Store, table: NodeId, expected: seq<Node>, edges: map<NodeId, NodeId>, c: NodeId)
    requires Recorded(view, table, expected, edges) && c in edges
    ensures edges[c] == table || edges[c] in edges
    ensures Reaches(view, table, edges[c]) && table !in edges
  {
    hide Edge, Reaches;
  }

  // Ancestors of a recorded node are recorded.
  lemma {:induction false} AncestorsRecorded(view: Store, table: NodeId, expected: seq<Node>, edges: map<NodeId,
                                             NodeId>,
                                             path: seq<NodeId>, c: NodeId, z: NodeId)
    requires TreeBelow(view, table) && Recorded(view, table, expected, edges)
    requires PathFromTo(view, path, c, z) && z in edges && Reaches(view, table, c) && c != table
    requires |path| > 0 && (|path| == 1 ==> c == z)
    ensures c in edges
    decreases |path|
  {
    hide Edge, TreeBelow, Reaches, Recorded, PathFromTo;
    if |path| > 1 {
      var k := |path| - 2;
      var front := path[..k + 1];
      LastEdge(view, path, c, z);
      PathFront(view, path, c, z);
      LongPath(view, front, c, path[k]);
      PathReaches(view, front, c, path[k]);
      ReachesOn(view, table, c, path[k]);
      RecordedEdge(view, table, expected, edges, path[k], z);
      if path[k] == table {
        NothingAboveTable(view, table, front, c);
      }
      RecordedUp(view, table, expected, edges, z);
      AncestorsRecorded(view, table, expected, edges, front, c, path[k]);
    }
  }

  lemma {:induction false} RecordedInBoth(view: Store, table: NodeId, expected: seq<Node>, a: map<NodeId, NodeId>,
                                          b: map<NodeId, NodeId>, c: NodeId)
    requires TreeBelow(view, table) && Recorded(view, table, expected, a) && Recorded(view, table, expected, b)
      && c in a
    ensures c in b && a[c] == b[c]
  {
    hide Edge, Distinct;
    var i :| 0 <= i < |expected| && Reaches(view, c, expected[i].id);
    var path :| PathFromTo(view, path, c, expected[i].id);
    ReachesStep(view, table, a[c], c);
    if expected[i].id == table {
      NothingAboveTable(view, table, path, c);
    }
    AncestorsRecorded(view, table, expected, b, path, c, expected[i].id);
  }

  // One record fits a tree.
  lemma {:induction false} RecordedUnique(view: Store, table: NodeId, expected: seq<Node>, a: map<NodeId, NodeId>,
                                          b: map<NodeId, NodeId>)
    requires TreeBelow(view, table) && Recorded(view, table, expected, a) && Recorded(view, table, expected, b)
    ensures a == b
  {
    hide TreeBelow, Recorded;
    forall c | c in a
      ensures c in b && a[c] == b[c]
    {
      RecordedInBoth(view, table, expected, a, b, c);
    }
    forall c | c in b
      ensures c in a
    {
      RecordedInBoth(view, table, expected, b, a, c);
    }
  }

  // Consecutive recorded edges from a node up to the table.
  ghost predicate ChainTo(edges: map<NodeId, NodeId>, chain: seq<NodeId>, from: NodeId, table: NodeId)
    decreases |chain|
  {
    && |chain| > 0 && chain[0] == from
    && if |chain| == 1 then from == table else from in edges && ChainTo(edges, chain[1..], edges[from], table)
  }

  lemma {:induction false} ChainReachesTable(view: Store, table: NodeId, expected: seq<Node>, edges: map<NodeId,
                                             NodeId>,
                                             path: seq<NodeId>, c: NodeId) returns (chain: seq<NodeId>)
    requires TreeBelow(view, table) && Recorded(view, table, expected, edges)
    requires PathFromTo(view, path, table, c) && |path| > 0 && (c == table || c in edges)
    ensures ChainTo(edges, chain, c, table) && |chain| <= |path|
    decreases |path|
  {
    hide Edge, TreeBelow, Reaches, Recorded, PathFromTo;
    if c == table {
      chain := [table];
    } else {
      LongPath(view, path, table, c);
      var k := |path| - 2;
      LastEdge(view, path, table, c);
      PathFront(view, path, table, c);
      PathReaches(view, path[..k + 1], table, path[k]);
      RecordedEdge(view, table, expected, edges, path[k], c);
      RecordedUp(view, table, expected, edges, c);
      var rest := ChainReachesTable(view, table, expected, edges, path[..k + 1], path[k]);
      chain := [c] + rest;
      assert chain[1..] == rest;
    }
  }

  // From every recorded payload the recorded edges lead to the table.
  lemma {:induction false} PayloadChain(view: Store, table: NodeId, expected: seq<Node>, edges: map<NodeId, NodeId>,
                                        i: nat)
    requires TreeBelow(view, table) && Recorded(view, table, expected, edges) && i < |expected|
    requires Reaches(view, table, expected[i].id)
    ensures exists chain :: ChainTo(edges, chain, expected[i].id, table)
  {
    hide Edge, Distinct, TreeBelow;
    var path :| PathFromTo(view, path, table, expected[i].id);
    var chain := ChainReachesTable(view, table, expected, edges, path, expected[i].id);
  }

  // ----- before and after an exchange

  // What the overlay of `expected_parents_after_exchange` looks up.
  function Overlay(store: Store, expected: seq<Node>, replacement: seq<Node>): Store {
    PutNodes(store - Ids(expected), replacement)
  }

  // The overlay is the store the exchange will leave.
  lemma {:induction false} OverlayIsExchange(store: Store, expected: seq<Node>, replacement: seq<Node>, next: Store)
    requires CanExchange(store, expected, replacement) && Exchanged(store, expected, replacement, next)
    ensures Overlay(store, expected, replacement) == next
  {
    hide PutNodes;
    PutNodesMeans(store - Ids(expected), replacement);
    ExchangeUnique(store, expected, replacement, Overlay(store, expected, replacement), next);
  }

  method ExpectedParents(store: Store, table: NodeId, expected: seq<Node>) returns (r: Result<map<NodeId, NodeId>>)
    ensures r.Ok? <==> TreeBelow(store, table) && forall i :: 0 <= i < |expected| ==>
      Reaches(store, table, expected[i].id)
    ensures r.Ok? ==> Recorded(store, table, expected, r.value)
  {
    hide *;
    r := ExpectedParentsFrom(store, table, expected);
  }

  method ExpectedParentsAfterExchange(store: Store, table: NodeId, expected: seq<Node>, replacement: seq<Node>)
      returns (r: Result<map<NodeId, NodeId>>)
    ensures var view := Overlay(store, expected, replacement);
      && (r.Ok? <==> TreeBelow(view, table) && forall i :: 0 <= i < |replacement| ==>
        Reaches(view, table, replacement[i].id))
      && (r.Ok? ==> Recorded(view, table, replacement, r.value))
  {
    hide *;
    r := ExpectedParentsFrom(Overlay(store, expected, replacement), table, replacement);
  }

  // The record captured before an exchange is the record of the exchanged store.
  lemma {:induction false} CaptureIsPredictive(store: Store, table: NodeId, expected: seq<Node>,
                                               replacement: seq<Node>, next: Store,
                                               before: map<NodeId, NodeId>, after: map<NodeId, NodeId>)
    requires CanExchange(store, expected, replacement) && Exchanged(store, expected, replacement, next)
    requires TreeBelow(next, table) && Recorded(next, table, replacement, after)
    requires Recorded(Overlay(store, expected, replacement), table, replacement, before)
    ensures before == after
  {
    hide TreeBelow, Recorded, Overlay;
    OverlayIsExchange(store, expected, replacement, next);
    RecordedUnique(next, table, replacement, before, after);
  }
}
