// Immutable document snapshots and whole transactions on them
// (crates/xiaomu-core/src/document/snapshot.rs, transaction/apply.rs, transaction/mod.rs).
module Documents {
  import opened Wrappers
  import opened Text
  import opened Content
  import opened Nodes
  import opened Mapping
  import opened Steps
  import opened Tree
  import opened Apply
  import opened Undo
  import opened UndoTree
  import opened UndoRun
  import opened TreeSteps
  import opened Searches
  import opened TableGrid
  import opened Snapshot
  import opened Engine
  import opened History

  // ----- the parent of a node

  // Nodes queued and nodes expanded by a breadth-first pass over all edges.
  ghost predicate Wave(store: Store, root: NodeId, queue: seq<NodeId>, done: set<NodeId>) {
    && Distinct(queue) && done <= store.Keys
    && (forall x :: x in queue ==> x in store && x !in done)
    && (root in queue || root in done)
    && (forall x :: (x in queue || x in done) && x != root ==> exists q :: q in done && Edge(store, q, x))
    && (forall p, c :: p in done && Edge(store, p, c) ==> c in queue || c in done)
  }

  lemma {:induction false} WaveStarts(store: Store, root: NodeId)
    requires root in store
    ensures Wave(store, root, [root], {})
  {}

  lemma {:induction false} WaveReference(store: Store, root: NodeId, queue: seq<NodeId>, done: set<NodeId>, c: NodeId)
    requires RootedReachable(store, root) && Wave(store, root, queue, done) && queue != [] && Edge(store, queue[0], c)
    ensures c in store && c !in done && c !in queue
  {
    hide Edge, Reaches, Distinct;
    assert queue[0] in queue;
  }

  lemma {:induction false} WaveStep(store: Store, root: NodeId, queue: seq<NodeId>, done: set<NodeId>)
    requires RootedReachable(store, root) && Wave(store, root, queue, done) && queue != []
    ensures queue[0] in store && queue[0] !in done
    ensures Wave(store, root, queue[1..] + References(store[queue[0]]), done + {queue[0]})
  {
    hide Reaches, Distinct, References, Edge, RootedReachable;
    var current := queue[0];
    assert current in queue;
    var references := References(store[current]);
    DistinctReferences(store, root, current);
    ReferencesAreEdges(store, current);
    DistinctTails(queue);
    forall c | c in references
      ensures c in store && c !in done && c !in queue
    {
      WaveReference(store, root, queue, done, c);
    }
    assert queue == [current] + queue[1..];
    DistinctConcat(queue[1..], references);
    var queue', done' := queue[1..] + references, done + {current};
    assert forall x :: x in queue' || x in done' <==> x in queue || x in done || x in references;
    forall x | (x in queue' || x in done') && x != root
      ensures exists q :: q in done' && Edge(store, q, x)
    {
      if x in references {
        assert Edge(store, current, x);
      }
    }
  }

  lemma DistinctReferences(store: Store, root: NodeId, p: NodeId)
    requires RootedReachable(store, root) && p in store
    ensures Distinct(References(store[p]))
  {
    hide Reaches, Distinct, References;
  }

  lemma {:induction false} NoParentAnywhere(store: Store, root: NodeId, done: set<NodeId>, id: NodeId)
    requires RootedReachable(store, root) && Wave(store, root, [], done) && id != root
    requires forall p :: p in done ==> !Edge(store, p, id)
    ensures id !in store
  {
    hide Edge, Distinct;
    if id in store {
      var path :| PathFromTo(store, path, root, id);
      ReachableInClosed(store, path, root, id, done);
    }
  }

  // `parent_of`: the one node referring to `id`; none for the root and for
  // unknown identities only.
  method ParentOfNode(store: Store, root: NodeId, id: NodeId) returns (r: Option<NodeId>)
    requires RootedReachable(store, root)
    ensures r.None? <==> id == root || id !in store
    ensures r.Some? ==> forall p :: Edge(store, p, id) <==> p == r.value
  {
    hide RootedReachable, Wave, Edge, Distinct;
    if id == root {
      return None;
    }
    RootIsStored(store, root);
    WaveStarts(store, root);
    var queue := [root];
    ghost var done: set<NodeId> := {};
    while queue != []
      invariant Wave(store, root, queue, done)
      invariant forall p :: p in done ==> !Edge(store, p, id)
      invariant done <= store.Keys
      decreases store.Keys - done
    {
      var current := queue[0];
      WaveStep(store, root, queue, done);
      ReferencesAreEdges(store, current);
      EdgesAreReferences(store, current);
      ghost var next := queue[1..] + References(store[current]);
      queue := queue[1..];
      done := done + {current};
      if store[current].content.Children? {
        var children := store[current].content.children;
        if id in children {
          OnlyParent(store, root, current, id);
          return Some(current);
        }
        queue := queue + children;
      }
      if store[current].content.Inline? {
        var atoms := Identities(store[current].content.inline.atoms);
        if id in atoms {
          OnlyParent(store, root, current, id);
          return Some(current);
        }
        queue := queue + atoms;
      }
      assert queue == next;
    }
    NoParentAnywhere(store, root, done, id);
    return None;
  }

  lemma RootIsStored(store: Store, root: NodeId)
    requires RootedReachable(store, root)
    ensures root in store
  {}

  lemma OnlyParent(store: Store, root: NodeId, p: NodeId, c: NodeId)
    requires RootedReachable(store, root) && Edge(store, p, c)
    ensures c in store && c != root && forall q :: Edge(store, q, c) <==> q == p
  {
    hide Edge, Distinct, Reaches;
  }

  // ----- documents

  // A snapshot: validated, with every identity below the next one.
  ghost predicate ValidDocument(d: Ctx) {
    CtxOk(d) && ValidTree(d.root, d.store)
  }

  // Validation and the working-tree invariant agree on the shape.
  lemma {:induction false} ValidIsTree(root: NodeId, store: Store)
    requires ValidTree(root, store) && NodesOk(store)
    ensures IsTree(store, root)
  {
    hide Edge, NodeOk, Distinct, Reaches, TablesValid, AllowsChild;
    ReachableHasDepth(store, root);
  }

  lemma {:induction false} TreeIsReachable(root: NodeId, store: Store)
    requires IsTree(store, root)
    ensures RootedReachable(store, root)
  {
    hide Edge, NodeOk, Distinct, Reaches;
    var depth :| IsDepth(store, root, depth);
    forall x | x in store
      ensures Reaches(store, root, x)
    {
      TreeReaches(store, root, depth, x);
    }
  }

  // `apply_steps`: the run, then validation of its result.
  ghost function Transact(d: Ctx, steps: seq<TransactionStep>): Result<Applied> {
    var applied :- Run(d, steps);
    if ValidTree(applied.ctx.root, applied.ctx.store) then Ok(applied) else Err(InvalidTransaction)
  }

  // `apply_with_changes` on sound steps: the specified run if its result is
  // valid, a failure otherwise.
  method ApplySteps(d: Ctx, steps: seq<TransactionStep>) returns (r: Result<Applied>)
    requires ValidDocument(d) && AllSound(steps)
    ensures r.Ok? <==> Transact(d, steps).Ok?
    ensures r.Ok? ==> r == Transact(d, steps) && ValidDocument(r.value.ctx)
  {
    hide CtxOk, ValidTree, Run, WellTyped, SelfContained;
    var applied :- RunSteps(d, steps);
    var valid := ValidateTree(applied.ctx.root, applied.ctx.store);
    if valid.Fail? {
      return Err(valid.error);
    }
    return Ok(applied);
  }

  // ----- whole transactions undone

  // Every accepted transaction of sound steps can be undone exactly when each of
  // its kind changes replaced a kind the parent allowed; the undone snapshot is
  // the original store and root, and undoing changes the allocator only upward.
  lemma {:induction false} TransactionUndo(d: Ctx, steps: seq<TransactionStep>)
    requires ValidDocument(d) && AllSound(steps) && Transact(d, steps).Ok?
    ensures var applied := Transact(d, steps).value; var undone := Transact(applied.ctx, applied.inverse);
      && ValidDocument(applied.ctx) && d.nextId <= applied.ctx.nextId
      && (undone.Ok? <==> ReversibleRun(d, steps))
      && (undone.Ok? ==> undone.value.ctx == Ctx(d.root, d.store,
          applied.ctx.nextId) && ValidDocument(undone.value.ctx))
  {
    hide CtxOk, ValidTree, Run, WellTyped, SelfContained, TreeRun, ReversibleRun;
    RunKeepsTree(d, steps);
    UndoesRun(d, steps);
    RunsKeepIds(d, steps);
    var applied := Run(d, steps).value;
    NextIdBound(applied.ctx);
    assert applied.ctx.(nextId := applied.ctx.nextId) == applied.ctx;
    if ReversibleRun(d, steps) {
      assert UndoneFrom(d, applied.ctx, applied.inverse);
      HigherIdsOk(d, applied.ctx.nextId);
    }
  }

  // Undo and redo, through validation: redo gives the applied snapshot back.
  lemma {:induction false} TransactionRedo(d: Ctx, steps: seq<TransactionStep>)
    requires ValidDocument(d) && AllSound(steps) && Transact(d, steps).Ok? && ReversibleRun(d, steps)
    ensures var applied := Transact(d, steps).value; var undone := Transact(applied.ctx, applied.inverse);
      && undone.Ok? && Transact(undone.value.ctx, undone.value.inverse).Ok?
      && Transact(undone.value.ctx, undone.value.inverse).value.ctx == applied.ctx
  {
    hide CtxOk, ValidTree, Run, WellTyped, SelfContained, TreeRun, ReversibleRun;
    RunKeepsTree(d, steps);
    UndoThenRedo(d, steps);
  }

  // ----- a refused undo on valid documents

  lemma {:induction false} NoTablesSpent(store: Store, ids: set<NodeId>)
    requires forall id :: id in ids ==> !IsTable(store, id)
    ensures SpentOn(store, ids) == Totals(0, 0, 0)
    decreases |ids|
  {
    hide SpentOn;
    NothingSpent(store);
    if ids != {} {
      var x :| x in ids;
      var rest := ids - {x};
      NoTablesSpent(store, rest);
      NoTableNoCost(store, x, rest);
      assert rest + {x} == ids;
    }
  }

  // Without tables and cells a tree of allowed kinds below a document is valid.
  lemma {:induction false} PlainIsValid(root: NodeId, store: Store)
    requires IsTree(store, root) && store[root].kind.Document?
    requires forall id :: id in store ==> !store[id].kind.Table? && !store[id].kind.IsTableCell()
    requires forall p, c :: ChildEdge(store, p, c) && c in store ==> AllowsChild(store[p].kind, store[c].kind)
    ensures ValidTree(root, store)
  {
    hide Edge, NodeOk, Distinct, Reaches, RootedReachable, SpentOn, IsDepth, AllowsChild, ChildEdge, EdgesClosed;
    hide OneParent, Validate;
    TreeIsReachable(root, store);
    NoTablesSpent(store, store.Keys);
    forall id | id in store
      ensures Validate(store[id]).Pass?
    {
      NodeInTree(store, root, id);
    }
  }

  lemma RunDecides(d: Ctx, steps: seq<TransactionStep>)
    ensures Run(d, steps).Ok? && ValidTree(Run(d, steps).value.ctx.root, Run(d, steps).value.ctx.store) ==>
      Transact(d, steps) == Run(d, steps)
    ensures Run(d, steps).Err? ==> Transact(d, steps).Err?
  {
    hide Run, ValidTree;
  }

  lemma EmptyIsValid()
    ensures ValidTree(0, EMPTY_DOCUMENT.store) && EMPTY_DOCUMENT.root == 0
  {
    hide IsTree;
    EmptyDocumentIsTree();
    PlainIsValid(0, EMPTY_DOCUMENT.store);
  }

  lemma DetourResultIsValid()
    requires IsTree(DETOUR_RESULT, 0)
    ensures ValidTree(0, DETOUR_RESULT)
  {
    hide IsTree;
    PlainIsValid(0, DETOUR_RESULT);
  }

  lemma ValidFrom(d: Ctx)
    requires CtxOk(d) && ValidTree(d.root, d.store)
    ensures ValidDocument(d)
  {
    hide CtxOk, ValidTree;
  }

  lemma TreeRunEnds(d: Ctx, steps: seq<TransactionStep>)
    requires TreeRun(d, steps)
    ensures Run(d, steps).Ok? && IsTree(Run(d, steps).value.ctx.store, d.root) && Run(d, steps).value.ctx.root == d.root
  {
    hide IsTree, TreeRun, Run, ReversibleRun;
    UndoesRun(d, steps);
    RunsKeepIds(d, steps);
  }

  // Even between valid documents an accepted transaction's undo can be refused.
  lemma {:induction false} ValidUndoCanBeRefused()
    ensures ValidDocument(EMPTY_DOCUMENT) && AllSound(DETOUR) && Transact(EMPTY_DOCUMENT, DETOUR).Ok?
    ensures var applied := Transact(EMPTY_DOCUMENT, DETOUR).value; Transact(applied.ctx, applied.inverse).Err?
  {
    hide *;
    EmptyDocumentIsTree();
    EmptyIsValid();
    ValidFrom(EMPTY_DOCUMENT);
    DetourSteps();
    UndoCanBeRefused();
    TreeRunEnds(EMPTY_DOCUMENT, DETOUR);
    var applied := Run(EMPTY_DOCUMENT, DETOUR).value;
    DetourResultIsValid();
    RunDecides(EMPTY_DOCUMENT, DETOUR);
    RunDecides(applied.ctx, applied.inverse);
  }

  lemma DetourSteps()
    ensures AllSound(DETOUR)
  {
    DetourIsSound();
    forall k | 0 <= k < |DETOUR|
      ensures Sound(DETOUR[k])
    {
      if k != 0 {
        assert DETOUR[k] == DETOUR[1];
      }
    }
  }
}
