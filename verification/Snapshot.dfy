// Full-tree validation of a stored document
// (crates/xiaomu-core/src/document/snapshot.rs).
module Snapshot {
  import opened Wrappers
  import opened Content
  import opened Nodes
  import opened Tree
  import opened Apply
  import opened Tiling
  import opened TableGrid
  import opened Searches

  // ----- what an accepted document is

  ghost predicate KindsAllowed(store: Store) {
    && (forall p, c :: ChildEdge(store, p, c) && c in store ==> AllowsChild(store[p].kind, store[c].kind))
    && AtomsPlaced(store)
  }

  ghost predicate NodesValid(store: Store) {
    forall id :: id in store ==> Validate(store[id]).Pass?
  }

  // A table whose rows and cells can be read and tile a rectangle.
  ghost predicate TableShaped(store: Store, table: NodeId) {
    && table in store && store[table].kind.Table? && store[table].content.Children?
    && var rows := store[table].content.children;
      && rows != [] && Readable(store, rows)
      && FirstWidth(store, rows) > 0 && DistinctRefs(RefsOf(store, rows))
      && exists tiling :: Tiles(ShapesOf(store, RefsOf(store, rows)), tiling, |rows|, FirstWidth(store, rows))
  }

  predicate IsTable(store: Store, id: NodeId) {
    id in store && store[id].kind.Table? && store[id].content.Children?
  }

  predicate IsEmptyCell(node: Node) {
    node.kind.IsTableCell() && node.content.Children? && node.content.children == []
  }

  function Sum(a: Totals, b: Totals): Totals {
    Totals(a.slots + b.slots, a.cells + b.cells, a.bytes + b.bytes)
  }

  // What one table takes from the budget.
  function TableCost(store: Store, id: NodeId): Totals {
    if IsTable(store, id) && store[id].content.children != [] then
      var rows := store[id].content.children;
      Totals(0, 0, 0).Plus(|rows|, FirstWidth(store, rows), |RefsOf(store, rows)|)
    else Totals(0, 0, 0)
  }

  function SpentOn(store: Store, ids: set<NodeId>): Totals
    decreases |ids|
  {
    if ids == {} then Totals(0, 0, 0)
    else
      var last := Largest(ids);
      Sum(SpentOn(store, ids - {last}), TableCost(store, last))
  }

  // Tables are well shaped, cells hold something, and all tables together stay
  // within the caps.
  ghost predicate TablesValid(store: Store) {
    && (forall id :: IsTable(store, id) ==> TableShaped(store, id))
    && (forall id :: id in store ==> !IsEmptyCell(store[id]))
    && SpentOn(store, store.Keys).WithinCaps()
  }

  ghost predicate ValidTree(root: NodeId, store: Store) {
    && RootedReachable(store, root) && store[root].kind.Document?
    && NodesValid(store) && KindsAllowed(store) && TablesValid(store)
  }

  // ----- the budget does not depend on the visiting order

  lemma {:induction false} SpentOnMore(store: Store, ids: set<NodeId>, x: NodeId)
    requires x !in ids
    ensures SpentOn(store, ids + {x}) == Sum(SpentOn(store, ids), TableCost(store, x))
    decreases |ids|
  {
    hide TableCost;
    var more := ids + {x};
    var last := Largest(more);
    if last == x {
      assert more - {x} == ids;
    } else {
      assert last in ids;
      assert Largest(ids) == last by { LargestIs(ids, last); }
      SpentOnMore(store, ids - {last}, x);
      assert more - {last} == ids - {last} + {x};
    }
  }

  lemma LargestIs(s: set<nat>, m: nat)
    requires m in s && forall x :: x in s ==> x <= m
    ensures Largest(s) == m
  {}

  lemma {:induction false} SpentOnGrows(store: Store, ids: set<NodeId>, more: set<NodeId>)
    requires ids <= more
    ensures SpentOn(store, ids).slots <= SpentOn(store, more).slots
    ensures SpentOn(store, ids).cells <= SpentOn(store, more).cells
    ensures SpentOn(store, ids).bytes <= SpentOn(store, more).bytes
    decreases |more - ids|
  {
    hide SpentOn, TableCost;
    if ids != more {
      var x :| x in more && x !in ids;
      assert more - (ids + {x}) < more - ids;
      SetShrinks(more - ids, x);
      assert more - (ids + {x}) == (more - ids) - {x};
      SpentOnMore(store, ids, x);
      SpentOnGrows(store, ids + {x}, more);
    }
  }

  lemma SetShrinks(s: set<NodeId>, x: NodeId)
    requires x in s
    ensures |s - {x}| < |s|
  {}

  // A shaped table is acceptable while the document's total is.
  lemma {:induction false} TableFits(store: Store, table: NodeId, visited: set<NodeId>)
    requires TablesValid(store) && IsTable(store, table) && table !in visited && visited <= store.Keys
    ensures Acceptable(store, table, SpentOn(store, visited))
  {
    hide SpentOn, Readable, RefsOf, FirstWidth, Tiles, DistinctRefs;
    SpentOnMore(store, visited, table);
    SpentOnGrows(store, visited + {table}, store.Keys);
  }

  lemma {:induction false} AcceptedIsShaped(store: Store, table: NodeId, visited: set<NodeId>)
    requires Acceptable(store, table, SpentOn(store, visited)) && table !in visited
    ensures TableShaped(store, table) && IsTable(store, table)
    ensures var rows := store[table].content.children;
      SpentOn(store, visited + {table})
        == SpentOn(store, visited).Plus(|rows|, FirstWidth(store, rows), |RefsOf(store, rows)|)
  {
    hide SpentOn, Readable, RefsOf, FirstWidth, Tiles, DistinctRefs;
    SpentOnMore(store, visited, table);
  }

  lemma NoTableNoCost(store: Store, id: NodeId, visited: set<NodeId>)
    requires !IsTable(store, id) && id !in visited
    ensures SpentOn(store, visited + {id}) == SpentOn(store, visited)
  {
    hide SpentOn, RefsOf, FirstWidth;
    SpentOnMore(store, visited, id);
  }

  // ----- the search

  // A frame of the explicit stack: a node to enter, or one to leave.
  datatype Frame = Frame(id: NodeId, entering: bool)

  ghost predicate Entering(stack: seq<Frame>, x: NodeId) {
    Frame(x, true) in stack
  }

  // The checks that concern one node and its references.
  ghost predicate LocalOk(store: Store, p: NodeId) {
    && p in store && Validate(store[p]).Pass? && Distinct(References(store[p]))
    && (forall c :: Edge(store, p, c) ==> c in store && ReferenceAllowed(store, p, c))
    && (IsTable(store, p) ==> TableShaped(store, p))
    && !IsEmptyCell(store[p])
  }

  predicate ReferenceAllowed(store: Store, p: NodeId, c: NodeId)
    requires p in store && c in store
  {
    && (store[p].content.Children? ==> AllowsChild(store[p].kind, store[c].kind))
    && (store[p].content.Inline? ==> store[c].kind.InlineAtom?)
  }

  ghost predicate FramesOk(store: Store, root: NodeId, visited: set<NodeId>, active: set<NodeId>, stack: seq<Frame>) {
    && (forall f :: f in stack && f.entering ==> f.id in store && f.id !in visited)
    && (forall f :: f in stack && !f.entering ==> f.id in active)
    && (forall i, j :: 0 <= i < j < |stack| ==> stack[i] != stack[j])
    && active <= visited
    && (stack != [] ==> stack == [Frame(root, true)] || stack[0] == Frame(root, false))
  }

  // What has been established for the nodes visited so far.
  ghost predicate Searched(store: Store, root: NodeId, visited: set<NodeId>, registered: set<NodeId>,
                           stack: seq<Frame>) {
    && root in store && visited <= store.Keys
    && (forall p :: p in visited ==> LocalOk(store, p))
    && (forall c :: c in registered <==> exists p :: p in visited && Edge(store, p, c))
    && (forall p, q, c :: p in visited && q in visited && Edge(store, p, c) && Edge(store, q, c) ==> p == q)
    && (forall x :: x in visited || Entering(stack, x) <==> x == root || x in registered)
    && root !in registered
    && (forall x :: x in visited || x in registered ==> Reaches(store, root, x))
  }

  lemma {:induction false} SearchStarts(store: Store, root: NodeId)
    requires root in store
    ensures Searched(store, root, {}, {}, [Frame(root, true)])
    ensures FramesOk(store, root, {}, {}, [Frame(root, true)])
  {}

  // An edge to an already visited or registered node makes the document invalid.
  lemma {:induction false} SecondParent(store: Store, root: NodeId, visited: set<NodeId>, registered: set<NodeId>,
                                        stack: seq<Frame>, id: NodeId, c: NodeId)
    requires Searched(store, root, visited, registered, stack) && id in store && id !in visited && Edge(store, id, c)
    requires id == root || id in registered
    requires c == id || c in visited || c in registered
    ensures !RootedReachable(store, root)
  {
    hide Edge, LocalOk, Reaches;
    if c == root {
    } else if c == id {
      var q :| q in visited && Edge(store, q, id);
      assert q != id;
    } else {
      assert c in registered;
      var q :| q in visited && Edge(store, q, c);
      assert q != id;
    }
  }

  lemma {:induction false} LocalFailure(store: Store, root: NodeId, p: NodeId)
    requires p in store && ValidTree(root, store)
    ensures LocalOk(store, p)
  {
    hide TableShaped, Reaches, AllowsChild, SpentOn, Distinct;
    forall c | Edge(store, p, c)
      ensures c in store && ReferenceAllowed(store, p, c)
    {
      if store[p].content.Children? {
        assert ChildEdge(store, p, c);
      }
    }
  }

  // Registered references: pushed in reverse, so the first is entered first.
  function Pushed(references: seq<NodeId>): (r: seq<Frame>)
    ensures |r| == |references|
    ensures forall i :: 0 <= i < |r| ==> r[i] == Frame(references[|references| - 1 - i], true)
  {
    seq(|references|, i requires 0 <= i < |references| => Frame(references[|references| - 1 - i], true))
  }

  ghost predicate Fresh(store: Store, id: NodeId, c: NodeId, active: set<NodeId>, registered: set<NodeId>)
    requires id in store
  {
    c in store && ReferenceAllowed(store, id, c) && c !in active && c !in registered
  }

  // The loop over a node's references, last first, with `register_edge` inlined.
  method RegisterEdges(store: Store, id: NodeId, references: seq<NodeId>, active: set<NodeId>,
                       counts0: map<NodeId, nat>, stack0: seq<Frame>)
      returns (r: Outcome, counts: map<NodeId, nat>, stack: seq<Frame>)
    requires id in store && forall c :: c in counts0 ==> counts0[c] == 1
    ensures r.Pass? ==> Distinct(references) && forall c :: c in references ==>
      Fresh(store, id, c, active, counts0.Keys)
    ensures r.Pass? ==> (forall c :: c in counts ==> counts[c] == 1)
    ensures r.Pass? ==> (forall c :: c in counts <==> c in counts0 || c in references)
    ensures r.Pass? ==> stack == stack0 + Pushed(references)
    ensures r.Fail? ==> !Distinct(references) || exists c ::
      c in references && !Fresh(store, id, c, active, counts0.Keys)
  {
    hide ReferenceAllowed, Distinct;
    counts, stack := counts0, stack0;
    var n := |references|;
    assert references[n..] == [];
    NoneAreDistinct(references[n..]);
    var i := n;
    while i > 0
      invariant 0 <= i <= n
      invariant Distinct(references[i..])
      invariant forall c :: c in references[i..] ==> Fresh(store, id, c, active, counts0.Keys)
      invariant forall c :: c in counts ==> counts[c] == 1
      invariant forall c :: c in counts <==> c in counts0 || c in references[i..]
      invariant stack == stack0 + Pushed(references)[..n - i]
    {
      i := i - 1;
      var child := references[i];
      assert references[i..] == [child] + references[i + 1..];
      assert child in references;
      if child !in store {
        return Fail(UnknownNode), counts, stack;
      }
      if !ReferenceAllowed(store, id, child) {
        return Fail(if store[id].content.Children? then InvalidChildKind else InvalidInlineAtomReference), counts,
            stack;
      }
      if child in active {
        return Fail(CyclicDocument), counts, stack;
      }
      var count := (if child in counts then counts[child] else 0) + 1;
      counts := counts[child := count];
      if count > 1 {
        RepeatedSuffix(references, i);
        return Fail(MultipleNodeParents), counts, stack;
      }
      DistinctFront(child, references[i + 1..]);
      stack := stack + [Frame(child, true)];
    }
    assert references[0..] == references;
    assert Pushed(references)[..n] == Pushed(references);
    return Pass, counts, stack;
  }

  lemma RepeatedSuffix(ids: seq<NodeId>, i: nat)
    requires i < |ids|
    ensures ids[i] in ids[i + 1..] ==> !Distinct(ids)
  {}

  lemma DistinctFront(x: NodeId, ids: seq<NodeId>)
    requires Distinct(ids) && x !in ids
    ensures Distinct([x] + ids)
  {}

  // ----- one step of the search

  lemma InConcat<T>(a: seq<T>, b: seq<T>)
    ensures forall x :: x in a + b <==> x in a || x in b
  {}

  lemma PushedMembers(references: seq<NodeId>)
    ensures forall f :: f in Pushed(references) <==> f.entering && f.id in references
    ensures Distinct(references) ==> forall i, j :: 0 <= i < j < |references| ==>
      Pushed(references)[i] != Pushed(references)[j]
  {
    var n := |references|;
    forall f
      ensures f in Pushed(references) <==> f.entering && f.id in references
    {
      if f.entering && f.id in references {
        var k :| 0 <= k < n && references[k] == f.id;
        assert Pushed(references)[n - 1 - k] == f;
      }
    }
  }

  lemma DistinctJoin<T>(a: seq<T>, b: seq<T>)
    requires forall i, j :: 0 <= i < j < |a| ==> a[i] != a[j]
    requires forall i, j :: 0 <= i < j < |b| ==> b[i] != b[j]
    requires forall x :: x in b ==> x !in a
    ensures forall i, j :: 0 <= i < j < |a + b| ==> (a + b)[i] != (a + b)[j]
  {
    var s := a + b;
    forall i, j | 0 <= i < j < |s|
      ensures s[i] != s[j]
    {
      if i < |a| && j >= |a| {
        assert s[i] in a && b[j - |a|] in b;
      }
    }
  }

  // The popped frame and the frames below it.
  lemma {:induction false} PoppedFrames(store: Store, root: NodeId, visited: set<NodeId>, active: set<NodeId>,
                                        rest: seq<Frame>, top: Frame)
    requires FramesOk(store, root, visited, active, rest + [top])
    ensures forall i, j :: 0 <= i < j < |rest| ==> rest[i] != rest[j]
    ensures top !in rest
    ensures forall f :: f in rest && f.entering ==> f.id in store && f.id !in visited
    ensures forall f :: f in rest && !f.entering ==> f.id in active
    ensures rest != [] ==> rest[0] == Frame(root, false) && rest[0] in rest
    ensures rest == [] ==> top.id == root
    ensures top.entering ==> top.id in store && top.id !in visited
    ensures active <= visited
  {
    var stack := rest + [top];
    InConcat(rest, [top]);
    assert forall i :: 0 <= i < |rest| ==> stack[i] == rest[i];
    assert stack[|rest|] == top;
  }

  lemma {:induction false} EnterFrames(store: Store, root: NodeId, visited: set<NodeId>, active: set<NodeId>,
                                       registered: set<NodeId>, rest: seq<Frame>, id: NodeId, references: seq<NodeId>)
    requires FramesOk(store, root, visited, active, rest + [Frame(id, true)])
    requires Searched(store, root, visited, registered, rest + [Frame(id, true)])
    requires id in store && Distinct(references)
    requires forall c :: c in references ==> Fresh(store, id, c, active + {id}, registered)
    ensures FramesOk(store, root, visited + {id}, active + {id}, rest + [Frame(id, false)] + Pushed(references))
    ensures root in active + {id} && id !in visited
  {
    hide LocalOk, Edge, Reaches, ReferenceAllowed, Distinct, FramesOk;
    var top, left := Frame(id, true), rest + [Frame(id, false)];
    var pushed := Pushed(references);
    var next := left + pushed;
    PoppedFrames(store, root, visited, active, rest, top);
    PushedMembers(references);
    InConcat(rest, [top]);
    InConcat(rest, [Frame(id, false)]);
    InConcat(left, pushed);
    NewReferences(store, root, visited, active, registered, rest, id, references);
    DistinctJoin(rest, [Frame(id, false)]);
    DistinctJoin(left, pushed);
    assert next[0] == if rest != [] then rest[0] else Frame(id, false);
    FramesAre(store, root, visited + {id}, active + {id}, next);
  }

  lemma FramesAre(store: Store, root: NodeId, visited: set<NodeId>, active: set<NodeId>, stack: seq<Frame>)
    requires forall f :: f in stack && f.entering ==> f.id in store && f.id !in visited
    requires forall f :: f in stack && !f.entering ==> f.id in active
    requires forall i, j :: 0 <= i < j < |stack| ==> stack[i] != stack[j]
    requires active <= visited && (stack != [] ==> stack[0] == Frame(root, false))
    ensures FramesOk(store, root, visited, active, stack)
  {}

  // References that pass the checks have not been seen at all.
  lemma {:induction false} NewReferences(store: Store, root: NodeId, visited: set<NodeId>, active: set<NodeId>,
                                         registered: set<NodeId>,
                                         rest: seq<Frame>, id: NodeId, references: seq<NodeId>)
    requires FramesOk(store, root, visited, active, rest + [Frame(id, true)])
    requires Searched(store, root, visited, registered, rest + [Frame(id, true)])
    requires id in store && forall c :: c in references ==> Fresh(store, id, c, active + {id}, registered)
    ensures root in active + {id} && root !in references
    ensures forall c :: c in references ==> c in store && c !in visited && c != id && Frame(c, true) !in rest
  {
    hide LocalOk, Edge, Reaches, ReferenceAllowed, FramesOk;
    PoppedFrames(store, root, visited, active, rest, Frame(id, true));
    InConcat(rest, [Frame(id, true)]);
    forall c | c in references
      ensures c in store && c !in visited && c != id && Frame(c, true) !in rest
    {
      assert c != root;
      assert Frame(c, true) in rest ==> Entering(rest + [Frame(id, true)], c);
    }
  }

  lemma {:induction false} EnterSearched(store: Store, root: NodeId, visited: set<NodeId>, active: set<NodeId>,
                                         registered: set<NodeId>, rest: seq<Frame>, id: NodeId)
    requires FramesOk(store, root, visited, active, rest + [Frame(id, true)])
    requires Searched(store, root, visited, registered, rest + [Frame(id, true)])
    requires LocalOk(store, id)
    requires forall c :: c in References(store[id]) ==> Fresh(store, id, c, active + {id}, registered)
    ensures Searched(store, root, visited + {id}, registered + (set c | c in References(store[id])),
                     rest + [Frame(id, false)] + Pushed(References(store[id])))
  {
    hide LocalOk, ReferenceAllowed, FramesOk, References, Reaches, Edge, Pushed, Entering;
    LocalFacts(store, id);
    var references := References(store[id]);
    var registered' := registered + set c | c in references;
    var next := rest + [Frame(id, false)] + Pushed(references);
    NewReferences(store, root, visited, active, registered, rest, id, references);
    ReferencesAreEdges(store, id);
    EnterReaches(store, root, visited, registered, rest, id);
    assert id !in visited by { PoppedFrames(store, root, visited, active, rest, Frame(id, true)); }
    forall x
      ensures x in visited + {id} || Entering(next, x) <==> x == root || x in registered'
    {
      EnterStack(store, root, visited, active, registered, rest, id, x);
    }
    forall c
      ensures c in registered' <==> exists p :: p in visited + {id} && Edge(store, p, c)
    {
      if c in references {
        assert Edge(store, id, c);
      }
    }
    forall p, q, c | p in visited + {id} && q in visited + {id} && Edge(store, p, c) && Edge(store, q, c)
      ensures p == q
    {
      assert c in references ==> c !in registered;
    }
  }

  lemma ReferencesAreEdges(store: Store, id: NodeId)
    requires id in store
    ensures forall c :: Edge(store, id, c) <==> c in References(store[id])
  {}

  lemma {:induction false} EnterReaches(store: Store, root: NodeId, visited: set<NodeId>, registered: set<NodeId>,
                                        rest: seq<Frame>, id: NodeId)
    requires Searched(store, root, visited, registered, rest + [Frame(id, true)]) && id in store
    ensures Reaches(store, root, id) && forall c :: Edge(store, id, c) ==> Reaches(store, root, c)
  {
    hide LocalOk, Reaches, Edge;
    EnteringIsReferred(store, root, visited, registered, rest, id);
    ReachesSelf(store, root);
    forall c | Edge(store, id, c)
      ensures Reaches(store, root, c)
    {
      ReachesStep(store, root, id, c);
    }
  }

  // Which identities are visited or waiting, after entering `id`.
  lemma {:induction false} EnterStack(store: Store, root: NodeId, visited: set<NodeId>, active: set<NodeId>,
                                      registered: set<NodeId>, rest: seq<Frame>, id: NodeId, x: NodeId)
    requires Searched(store, root, visited, registered, rest + [Frame(id, true)]) && id in store
    ensures x in visited + {id} || Entering(rest + [Frame(id, false)] + Pushed(References(store[id])), x)
      <==> x == root || x in registered || x in References(store[id])
  {
    hide LocalOk, Reaches, Edge, References;
    var references := References(store[id]);
    PushedMembers(references);
    InConcat(rest, [Frame(id, true)]);
    InConcat(rest, [Frame(id, false)]);
    InConcat(rest + [Frame(id, false)], Pushed(references));
    assert Entering(rest + [Frame(id, true)], x) <==> Frame(x, true) in rest || x == id;
  }

  lemma {:induction false} LeaveFrames(store: Store, root: NodeId, visited: set<NodeId>, active: set<NodeId>,
                                       registered: set<NodeId>, rest: seq<Frame>, id: NodeId)
    requires FramesOk(store, root, visited, active, rest + [Frame(id, false)])
    requires Searched(store, root, visited, registered, rest + [Frame(id, false)])
    ensures FramesOk(store, root, visited, active - {id}, rest)
    ensures Searched(store, root, visited, registered, rest)
  {
    hide LocalOk, Edge, Reaches, FramesOk;
    PoppedFrames(store, root, visited, active, rest, Frame(id, false));
    InConcat(rest, [Frame(id, false)]);
    assert forall x :: Entering(rest + [Frame(id, false)], x) <==> Entering(rest, x);
    FramesAre(store, root, visited, active - {id}, rest);
  }

  // ----- the end of the search

  lemma {:induction false} SearchDone(store: Store, root: NodeId, visited: set<NodeId>, registered: set<NodeId>)
    requires Searched(store, root, visited, registered, []) && store[root].kind.Document?
    requires visited == store.Keys && SpentOn(store, visited).WithinCaps()
    ensures ValidTree(root, store)
  {
    hide TableShaped, SpentOn, Reaches, AllowsChild, Validate, RootedReachable, LocalOk;
    SearchedIsTree(store, root, visited, registered);
    forall p | p in store
      ensures Validate(store[p]).Pass? && !IsEmptyCell(store[p]) && (IsTable(store, p) ==> TableShaped(store, p))
      ensures forall c :: Edge(store, p, c) ==> c in store && ReferenceAllowed(store, p, c)
    {
      LocalFacts(store, p);
    }
    forall p, c | ChildEdge(store, p, c) && c in store
      ensures AllowsChild(store[p].kind, store[c].kind)
    {
      assert Edge(store, p, c);
    }
  }

  lemma LocalFacts(store: Store, p: NodeId)
    requires LocalOk(store, p)
    ensures p in store && Validate(store[p]).Pass? && !IsEmptyCell(store[p])
      && (IsTable(store, p) ==> TableShaped(store, p))
    ensures Distinct(References(store[p]))
    ensures forall c :: Edge(store, p, c) ==> c in store && ReferenceAllowed(store, p, c)
  {
    hide TableShaped, Validate, Distinct, References, ReferenceAllowed;
  }

  lemma {:induction false} SearchedIsTree(store: Store, root: NodeId, visited: set<NodeId>, registered: set<NodeId>)
    requires Searched(store, root, visited, registered, []) && visited == store.Keys
    ensures RootedReachable(store, root)
  {
    hide LocalOk, Reaches, References, Distinct;
    forall p | p in store
      ensures Distinct(References(store[p])) && forall c :: Edge(store, p, c) ==> c in store
    {
      LocalFacts(store, p);
    }
    forall p
      ensures !Edge(store, p, root)
    {
      assert Edge(store, p, root) ==> p in visited;
    }
  }

  lemma {:induction false} SomethingUnreached(store: Store, root: NodeId, visited: set<NodeId>, registered: set<NodeId>)
    requires Searched(store, root, visited, registered, []) && visited != store.Keys
    ensures !RootedReachable(store, root)
  {
    hide LocalOk, Edge;
    var x :| x in store && x !in visited;
    if Reaches(store, root, x) {
      var path :| PathFromTo(store, path, root, x);
      assert forall y :: !Entering([], y);
      assert forall p, c :: p in visited && Edge(store, p, c) ==> c in registered;
      ReachableInClosed(store, path, root, x, visited);
    }
  }

  lemma NotADocument(root: NodeId, store: Store)
    requires root !in store || !store[root].kind.Document? || !RootedReachable(store, root)
    ensures !ValidTree(root, store)
  {
    hide SpentOn;
  }

  lemma NothingSpent(store: Store)
    ensures SpentOn(store, {}) == Totals(0, 0, 0)
  {}

  // ----- one node's checks

  // `Node::validate`, the grid of a table, and no empty cell.
  method CheckNode(store: Store, id: NodeId, budget: TableGridBudget, ghost seen: set<NodeId>) returns (r: Outcome)
    requires id in store && id !in seen
    requires budget.Spent() == SpentOn(store, seen) && budget.Spent().WithinCaps()
    modifies budget
    ensures budget.Spent().WithinCaps()
    ensures r.Pass? ==> budget.Spent() == SpentOn(store, seen + {id}) && Validate(store[id]).Pass?
                        && (IsTable(store, id) ==> TableShaped(store, id)) && !IsEmptyCell(store[id])
    ensures r.Fail? ==>
      || Validate(store[id]).Fail? || (IsTable(store, id) && !Acceptable(store, id, SpentOn(store, seen)))
      || IsEmptyCell(store[id])
  {
    hide Validate, SpentOn, Acceptable, TableShaped, GridOf;
    var node := store[id];
    r := Validate(node);
    if r.Fail? {
      return;
    }
    if node.content.Children? && node.kind.Table? {
      var grid := FromStore(store, id, budget);
      if grid.Err? {
        return Fail(grid.error);
      }
      AcceptedIsShaped(store, id, seen);
      GridSizes(store, id, grid.value);
    } else {
      NoTableNoCost(store, id, seen);
    }
    if node.content.Children? && node.kind.IsTableCell() && node.content.children == [] {
      return Fail(InvalidTableStructure);
    }
  }

  lemma GridSizes(store: Store, table: NodeId, grid: TableGrid)
    requires GridOf(store, table, grid)
    ensures table in store && store[table].content.Children? && grid.rows == store[table].content.children
      && grid.rows != []
    ensures grid.columns == FirstWidth(store, grid.rows) && |grid.cells| == |RefsOf(store, grid.rows)|
  {
    hide RefsOf, Tiles, ShapeOf, SlotsHold, Indexed, FirstWidth;
  }

  lemma {:induction false} CheckFailed(store: Store, root: NodeId, id: NodeId, seen: set<NodeId>)
    requires id in store && id !in seen && seen <= store.Keys
    requires Validate(store[id]).Fail? || (IsTable(store, id) && !Acceptable(store, id, SpentOn(store, seen)))
      || IsEmptyCell(store[id])
    ensures !ValidTree(root, store)
  {
    hide Validate, SpentOn, Acceptable, TableShaped, Reaches, AllowsChild, IsEmptyCell;
    if ValidTree(root, store) && IsTable(store, id) {
      TableFits(store, id, seen);
    }
  }

  lemma {:induction false} EdgesFailed(store: Store, root: NodeId, visited: set<NodeId>, active: set<NodeId>,
                                       registered: set<NodeId>, stack: seq<Frame>, id: NodeId)
    requires FramesOk(store, root, visited, active, stack) && Searched(store, root, visited, registered, stack)
    requires id in store && id !in visited && (id == root || id in registered)
    requires !Distinct(References(store[id]))
      || exists c :: c in References(store[id]) && !Fresh(store, id, c, active + {id}, registered)
    ensures !ValidTree(root, store)
  {
    hide Searched, LocalOk, RootedReachable, KindsAllowed, NodesValid, TablesValid, ReferenceAllowed, References;
    if ValidTree(root, store) {
      LocalFailure(store, root, id);
      LocalParts(store, id);
      assert active <= visited by { FramesActive(store, root, visited, active, stack); }
      var c :| c in References(store[id]) && !Fresh(store, id, c, active + {id}, registered);
      assert Edge(store, id, c);
      SecondParent(store, root, visited, registered, stack, id, c);
    }
  }

  lemma FramesActive(store: Store, root: NodeId, visited: set<NodeId>, active: set<NodeId>, stack: seq<Frame>)
    requires FramesOk(store, root, visited, active, stack)
    ensures active <= visited
  {}

  lemma LocalParts(store: Store, p: NodeId)
    requires LocalOk(store, p)
    ensures p in store && Distinct(References(store[p]))
    ensures forall c :: c in References(store[p]) ==> c in store && ReferenceAllowed(store, p, c)
  {
    hide TableShaped, Validate, Distinct, References, ReferenceAllowed;
    assert forall c :: c in References(store[p]) <==> Edge(store, p, c);
  }

  lemma {:induction false} Entered(store: Store, root: NodeId, visited: set<NodeId>, active: set<NodeId>,
                                   registered: set<NodeId>, rest: seq<Frame>, id: NodeId, registered': set<NodeId>)
    requires FramesOk(store, root, visited, active, rest + [Frame(id, true)])
    requires Searched(store, root, visited, registered, rest + [Frame(id, true)])
    requires id in store && Validate(store[id]).Pass? && (IsTable(store, id) ==> TableShaped(store, id))
      && !IsEmptyCell(store[id])
    requires Distinct(References(store[id]))
    requires forall c :: c in References(store[id]) ==> Fresh(store, id, c, active + {id}, registered)
    requires forall c :: c in registered' <==> c in registered || c in References(store[id])
    ensures FramesOk(store, root, visited + {id}, active + {id},
        rest + [Frame(id, false)] + Pushed(References(store[id])))
    ensures Searched(store, root, visited + {id}, registered',
        rest + [Frame(id, false)] + Pushed(References(store[id])))
  {
    hide FramesOk, Searched, TableShaped, Validate, Distinct, References, ReferenceAllowed;
    assert forall c :: c in References(store[id]) <==> Edge(store, id, c);
    assert LocalOk(store, id);
    EnterFrames(store, root, visited, active, registered, rest, id, References(store[id]));
    EnterSearched(store, root, visited, active, registered, rest, id);
    assert registered' == registered + set c | c in References(store[id]);
  }

  lemma EnteringIsReferred(store: Store, root: NodeId, visited: set<NodeId>, registered: set<NodeId>,
                           rest: seq<Frame>, id: NodeId)
    requires Searched(store, root, visited, registered, rest + [Frame(id, true)])
    ensures id == root || id in registered
    ensures root !in registered && visited <= store.Keys
  {
    hide LocalOk, Edge, Reaches;
    InConcat(rest, [Frame(id, true)]);
    assert Entering(rest + [Frame(id, true)], id);
  }

  lemma SearchedRoot(store: Store, root: NodeId, visited: set<NodeId>, registered: set<NodeId>, stack: seq<Frame>)
    requires Searched(store, root, visited, registered, stack)
    ensures root !in registered && visited <= store.Keys && root in store
  {
    hide LocalOk, Edge, Reaches;
  }

  // Accepts exactly the valid trees.
  method ValidateTree(root: NodeId, store: Store) returns (r: Outcome)
    ensures r.Pass? <==> ValidTree(root, store)
  {
    hide *;
    if root !in store {
      NotADocument(root, store);
      return Fail(UnknownNode);
    }
    if !store[root].kind.Document? {
      NotADocument(root, store);
      return Fail(InvalidRootNode);
    }
    var visited: set<NodeId> := {};
    var active: set<NodeId> := {};
    var counts: map<NodeId, nat> := map[];
    var budget := new TableGridBudget();
    var stack := [Frame(root, true)];
    SearchStarts(store, root);
    assert counts.Keys == {};
    NothingSpent(store);
    NoCosts();
    while stack != []
      invariant fresh(budget) && budget.Spent() == SpentOn(store, visited) && budget.Spent().WithinCaps()
      invariant FramesOk(store, root, visited, active, stack)
      invariant Searched(store, root, visited, counts.Keys, stack)
      invariant forall c :: c in counts ==> counts[c] == 1
      invariant visited <= store.Keys
      decreases store.Keys - visited, |stack|
    {
      var top := stack[|stack| - 1];
      ghost var whole := stack;
      stack := stack[..|stack| - 1];
      assert whole == stack + [top];
      var id := top.id;
      assert top == Frame(id, top.entering);
      PoppedFrames(store, root, visited, active, stack, top);
      if !top.entering {
        LeaveFrames(store, root, visited, active, counts.Keys, stack, id);
        active := active - {id};
        continue;
      }
      // Each identity is pushed once, so it is neither active nor visited here.
      assert id !in active && id !in visited && id in store;
      EnteringIsReferred(store, root, visited, counts.Keys, stack, id);
      ghost var seen, before, rest := visited, active, stack;
      visited := visited + {id};
      active := active + {id};
      stack := stack + [Frame(id, false)];
      var checked := CheckNode(store, id, budget, seen);
      if checked.Fail? {
        CheckFailed(store, root, id, seen);
        return checked;
      }
      var registered, counts', stack' := RegisterEdges(store, id, References(store[id]), active, counts, stack);
      if registered.Fail? {
        EdgesFailed(store, root, seen, before, counts.Keys, whole, id);
        return registered;
      }
      Entered(store, root, seen, before, counts.Keys, rest, id, counts'.Keys);
      counts, stack := counts', stack';
    }
    SearchedRoot(store, root, visited, counts.Keys, []);
    // A reference to the root would have closed a cycle.
    assert root !in counts;
    SameSize(visited, store.Keys);
    if |visited| != |store.Keys| {
      SomethingUnreached(store, root, visited, counts.Keys);
      NotADocument(root, store);
      return Fail(UnreachableNode);
    }
    SearchDone(store, root, visited, counts.Keys);
    return Pass;
  }

  lemma NoCosts()
    ensures Totals(0, 0, 0).WithinCaps()
  {}

  lemma SameSize(a: set<NodeId>, b: set<NodeId>)
    requires a <= b
    ensures |a| == |b| <==> a == b
  {
    var rest := b - a;
    assert b == a + rest;
    if rest != {} {
      assert |a + rest| == |a| + |rest|;
    }
  }
}
