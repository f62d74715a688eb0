// Undo of restored subtrees, and of whole transactions.
module UndoRun {
  import opened Wrappers
  import opened Text
  import opened Marks
  import opened Content
  import opened InlineEdit
  import opened Nodes
  import opened InputMarks
  import opened Mapping
  import opened Steps
  import opened Inverse
  import opened InlineUndo
  import opened Structure
  import opened Tree
  import opened WorkingStore
  import opened Apply
  import opened Undo
  import opened UndoTree
  import opened UndoAtoms

  // ----- restored subtrees

  // New nodes hang below `top` only: `added` is exactly the subtree of `top`.
  ghost predicate Grafted(store: Store, post: Store, parent: NodeId, top: NodeId, added: set<NodeId>) {
    && top in added && added !! store.Keys && post.Keys == store.Keys + added
    && (forall p, c :: Edge(store, p, c) ==> Edge(post, p, c))
    && (forall p, c :: Edge(post, p, c) && p in store ==> Edge(store, p, c) || (p == parent && c == top))
  }

  // Old nodes keep their old parents.
  lemma {:induction false} ParentsKept(store: Store, post: Store, root: NodeId, parent: NodeId, top: NodeId,
                                       added: set<NodeId>, c: NodeId)
    requires IsTree(store, root) && Grafted(store, post, parent, top, added)
    ensures c in store && c != root ==> exists q :: q in store && Edge(post, q, c)
  {
    hide Edge, NodeOk, Distinct;
    EdgeParentStored(store);
    var depth :| IsDepth(store, root, depth);
  }

  lemma {:induction false} GraftClosed(store: Store, post: Store, root: NodeId, parent: NodeId, top: NodeId,
                                       added: set<NodeId>)
    requires IsTree(store, root) && IsTree(post, root) && Grafted(store, post, parent, top, added)
    ensures forall p, c :: p in added && Edge(post, p, c) ==> c in added
  {
    hide Edge, NodeOk, Distinct;
    forall p, c | p in added && Edge(post, p, c)
      ensures c in added
    {
      ParentsKept(store, post, root, parent, top, added, c);
    }
  }

  lemma {:induction false} GraftReached(store: Store, post: Store, root: NodeId, parent: NodeId, top: NodeId,
                                        added: set<NodeId>, depth: map<NodeId, nat>, x: NodeId)
    requires root in store && EdgesClosed(store) && EdgesClosed(post) && IsDepth(post, root, depth)
    requires Grafted(store, post, parent, top, added) && x in added
    ensures x in depth && Reaches(post, top, x)
    decreases depth[x]
  {
    hide Edge, Distinct;
    if x == top {
      ReachesSelf(post, top);
    } else {
      EdgeParentStored(post);
      var p :| Edge(post, p, x);
      if p in store {
        EdgeChildStored(store, p, x);
      } else {
        GraftReached(store, post, root, parent, top, added, depth, p);
        ReachesStep(post, top, p, x);
      }
    }
  }

  lemma {:induction false} GraftIsSubtree(store: Store, post: Store, root: NodeId, parent: NodeId, top: NodeId,
                                          added: set<NodeId>)
    requires IsTree(store, root) && IsTree(post, root) && Grafted(store, post, parent, top, added)
    ensures Subtree(post, top) == added
  {
    hide Edge, NodeOk, Distinct, IsDepth;
    GraftClosed(store, post, root, parent, top, added);
    SubtreeSmallest(post, top, added);
    var depth :| IsDepth(post, root, depth);
    forall x | x in added
      ensures x in Subtree(post, top)
    {
      GraftReached(store, post, root, parent, top, added, depth, x);
    }
  }

  lemma {:induction false} CheckedIdsDistinct(nodes: seq<Node>, nextId: nat)
    requires CheckRestored(nodes, nextId).Ok? && nextId < U64_LIMIT
    ensures DistinctIds(nodes) && nextId <= CheckRestored(nodes, nextId).value < U64_LIMIT
    ensures forall i :: 0 <= i < |nodes| ==> nodes[i].id < CheckRestored(nodes, nextId).value
  {
    if nodes != [] {
      var front := nodes[..|nodes| - 1];
      CheckedIdsDistinct(front, nextId);
      assert forall i :: 0 <= i < |front| ==> nodes[i] == front[i];
    }
  }

  lemma {:induction false} RestoredFacts(ctx: Ctx, parent: NodeId, index: nat, root: NodeId, nodes: seq<Node>)
    requires CtxOk(ctx) && ApplyRestoreSubtree(ctx, parent, index, root, nodes).Ok?
    ensures var post := ApplyRestoreSubtree(ctx, parent, index, root, nodes).value.ctx;
      && DistinctIds(nodes) && root in Ids(nodes) && Ids(nodes) !! ctx.store.Keys && parent !in Ids(nodes)
      && parent in ctx.store && ctx.store[parent].content.Children? && index <= |ctx.store[parent].content.children|
      && ctx.store[parent].id == parent && Validate(ctx.store[parent]).Pass?
      && post.root == ctx.root && ctx.nextId <= post.nextId < U64_LIMIT
      && (forall i :: 0 <= i < |nodes| ==> nodes[i].id < post.nextId)
      && post.store == PutNodes(ctx.store, nodes)
           [parent := ctx.store[parent].(content := Children(InsertId(ctx.store[parent].content.children, index,
               root)))]
  {
    hide IsTree, NodeOk, Validate, InsertId, CheckRestored, PutNodes, DistinctIds;
    NodeInTree(ctx.store, ctx.root, parent);
    CheckedIdsDistinct(nodes, ctx.nextId);
  }

  lemma {:induction false} RestoredGraft(store: Store, post: Store, parent: NodeId, index: nat, top: NodeId,
                                         nodes: seq<Node>)
    requires DistinctIds(nodes) && top in Ids(nodes) && Ids(nodes) !! store.Keys
    requires parent in store && store[parent].content.Children? && index <= |store[parent].content.children|
    requires post == PutNodes(store, nodes)
      [parent := store[parent].(content := Children(InsertId(store[parent].content.children, index, top)))]
    ensures Grafted(store, post, parent, top, Ids(nodes)) && post.Keys == store.Keys + Ids(nodes)
    ensures forall id :: id in store && id != parent ==> post[id] == store[id]
  {
    hide InsertId, PutNodes, DistinctIds, Ids;
    PutNodesMeans(store, nodes);
    InsertedIsMember(store[parent].content.children, index, top);
  }

  lemma {:induction false} RemoveRestored(ctx: Ctx, parent: NodeId, index: nat, top: NodeId, nodes: seq<Node>,
                                          from: Ctx)
    requires CtxOk(ctx) && ApplyRestoreSubtree(ctx, parent, index, top, nodes).Ok?
    requires from.root == ctx.root && IsTree(from.store, from.root)
    requires from.store == ApplyRestoreSubtree(ctx, parent, index, top, nodes).value.ctx.store
    ensures ApplyRemoveNode(from, top).Ok?
    ensures ApplyRemoveNode(from, top).value.ctx == Ctx(ctx.root, ctx.store, from.nextId)
  {
    hide IsTree, NodeOk, Validate, WithoutId, PositionOf, Subtree, PayloadsOf, ParentOf, PutNodes, DistinctIds, Ids;
    hide InsertId, Grafted;
    hide ApplyRestoreSubtree;
    RestoredFacts(ctx, parent, index, top, nodes);
    var children := ctx.store[parent].content.children;
    RestoredGraft(ctx.store, from.store, parent, index, top, nodes);
    GraftIsSubtree(ctx.store, from.store, ctx.root, parent, top, Ids(nodes));
    RootStored(ctx.store, ctx.root);
    ChildrenDistinct(ctx.store, ctx.root, parent);
    InsertedIsMember(children, index, top);
    assert ChildEdge(from.store, parent, top);
    ParentIs(from.store, from.root, parent, top);
    WithoutInserted(children, index, top);
    ValidateNewChildren(ctx.store[parent], children);
    assert ctx.store[parent].(content := Children(children)) == ctx.store[parent];
    PrunedIsOld(ctx.store, from.store, parent, Ids(nodes));
  }

  lemma {:induction false} PrunedIsOld(store: Store, post: Store, parent: NodeId, added: set<NodeId>)
    requires added !! store.Keys && post.Keys == store.Keys + added && parent in store
    requires forall id :: id in store && id != parent ==> post[id] == store[id]
    ensures post[parent := store[parent]] - added == store
  {}

  lemma {:induction false} UndoRestoreSubtree(ctx: Ctx, parent: NodeId, index: nat, root: NodeId, nodes: seq<Node>)
    requires CtxOk(ctx) && ApplyRestoreSubtree(ctx, parent, index, root, nodes).Ok?
    requires CtxOk(ApplyRestoreSubtree(ctx, parent, index, root, nodes).value.ctx)
    ensures var applied := ApplyRestoreSubtree(ctx, parent, index, root, nodes).value;
      Undoes(ctx, applied.ctx, applied.inverse)
  {
    hide IsTree, NodeOk, Run, InsertId, Validate, ApplyRemoveNode, PutNodes, CheckRestored, Ids;
    var applied := ApplyRestoreSubtree(ctx, parent, index, root, nodes).value;
    forall nextId | applied.ctx.nextId <= nextId < U64_LIMIT
      ensures UndoneFrom(ctx, applied.ctx.(nextId := nextId), applied.inverse)
    {
      var from := applied.ctx.(nextId := nextId);
      RemoveRestored(ctx, parent, index, root, nodes, from);
      UndoneByOne(ctx, from, RemoveNodeStep(root));
    }
  }

  // ----- one step

  // The kind change a parent would not let back is the one step that cannot
  // be undone.
  ghost predicate Reversible(ctx: Ctx, step: TransactionStep) {
    step.SetNodeKindStep? ==> KindWasAllowed(ctx, step.node)
  }

  lemma {:induction false} UndoSplitNode(ctx: Ctx, node: NodeId, offset: nat)
    requires CtxOk(ctx) && ApplySplitNode(ctx, node, offset).Ok? && CtxOk(ApplySplitNode(ctx, node, offset).value.ctx)
    ensures var applied := ApplySplitNode(ctx, node, offset).value; Undoes(ctx, applied.ctx, applied.inverse)
  {
    hide CtxOk, SplitInline, Undoes, OffsetCheck;
    UndoSplit(ctx, InlinePoint(node, offset, 0, BeforeGlyph), None, false);
  }

  lemma {:induction false} UndoRestoreJoined(ctx: Ctx, at: InlinePoint, payload: Node)
    requires CtxOk(ctx) && ApplyRestoreJoinedNode(ctx, at, payload).Ok?
      && CtxOk(ApplyRestoreJoinedNode(ctx, at, payload).value.ctx)
    ensures var applied := ApplyRestoreJoinedNode(ctx, at, payload).value; Undoes(ctx, applied.ctx, applied.inverse)
  {
    hide CtxOk, SplitInline, Undoes;
    UndoSplit(ctx, at, Some(payload), ctx.store[at.node].content.inline.atoms != []);
  }

  lemma {:induction false} UndoOther(ctx: Ctx, step: TransactionStep)
    requires CtxOk(ctx) && WellTyped(step) && ApplyStep(ctx, step).Ok? && CtxOk(ApplyStep(ctx, step).value.ctx)
    requires !step.SetNodeKindStep?
    ensures Undoes(ctx, ApplyStep(ctx, step).value.ctx, ApplyStep(ctx, step).value.inverse)
  {
    hide CtxOk, WellTyped, Undoes, ApplyReplaceText, ApplyReplaceInlineText, ApplyMarkChange, ApplyInsertInlineAtom;
    hide ApplyRemoveInlineAtom, ApplySetInlineAtomMarks, ApplyRestoreInlineAtom, ApplyInsertNode, ApplyRestoreSubtree;
    hide ApplyRemoveNode, ApplySetNodeAttrs, ApplySetNodeKind, ApplySplitNode, SplitInline, ApplyRestoreJoinedNode;
    hide ApplyJoinNodes;
    match step {
      case ReplaceTextStep(node, _, _, _) => UndoEdit(ctx, node, step);
      case ReplaceInlineTextStep(at, _, _) => UndoEdit(ctx, at.node, step);
      case AddMarkStep(node, _, _, _) => UndoEdit(ctx, node, step);
      case RemoveMarkStep(node, _, _, _) => UndoEdit(ctx, node, step);
      case InsertInlineAtomStep(at, kind, attrs, fallback, marks) => UndoInsertAtom(ctx, at, kind, attrs, fallback,
          marks);
      case RemoveInlineAtomStep(atom) => UndoRemoveAtom(ctx, atom);
      case SetInlineAtomMarksStep(atom, marks) => UndoSetMarks(ctx, atom, marks);
      case RestoreInlineAtomStep(at, payload) => UndoRestoreAtom(ctx, at, payload);
      case InsertNodeStep(parent, index, kind, attrs, content) => UndoInsertNode(ctx, parent, index, kind, attrs,
          content);
      case RestoreSubtreeStep(parent, index, root, nodes) => UndoRestoreSubtree(ctx, parent, index, root, nodes);
      case RemoveNodeStep(node) => UndoRemoveNode(ctx, node);
      case SetNodeAttrsStep(node, attrs) => UndoSetAttrs(ctx, node, attrs);
      case SplitNodeStep(node, offset) => UndoSplitNode(ctx, node, offset);
      case SplitInlineNodeStep(at) => UndoSplit(ctx, at, None, true);
      case RestoreJoinedNodeStep(at, payload) => UndoRestoreJoined(ctx, at, payload);
      case JoinNodesStep(first, second) => UndoJoin(ctx, first, second);
    }
  }

  // Undo of one step succeeds, restoring the state exactly, if and only if the
  // step is reversible.
  lemma {:induction false} UndoStep(ctx: Ctx, step: TransactionStep)
    requires CtxOk(ctx) && WellTyped(step) && ApplyStep(ctx, step).Ok? && CtxOk(ApplyStep(ctx, step).value.ctx)
    ensures var applied := ApplyStep(ctx, step).value;
      && (Reversible(ctx, step) ==> Undoes(ctx, applied.ctx, applied.inverse))
      && (!Reversible(ctx, step) ==> forall nextId :: Run(applied.ctx.(nextId := nextId), applied.inverse).Err?)
  {
    if step.SetNodeKindStep? {
      hide CtxOk, WellTyped, Undoes, ApplySetNodeKind, KindWasAllowed, Run;
      UndoSetKind(ctx, step.node, step.kind);
    } else {
      hide CtxOk, WellTyped, Undoes, ApplyStep, Run;
      UndoOther(ctx, step);
    }
  }

  // ----- runs

  // Every state of the run is a tree and every step is well typed and applies.
  ghost predicate TreeRun(ctx: Ctx, steps: seq<TransactionStep>)
    decreases |steps|
  {
    && CtxOk(ctx)
    && (steps != [] ==> WellTyped(steps[0]) && ApplyStep(ctx, steps[0]).Ok?
                        && TreeRun(ApplyStep(ctx, steps[0]).value.ctx, steps[1..]))
  }

  ghost predicate ReversibleRun(ctx: Ctx, steps: seq<TransactionStep>)
    decreases |steps|
  {
    steps == [] || (Reversible(ctx, steps[0])
                    && (ApplyStep(ctx, steps[0]).Ok? ==> ReversibleRun(ApplyStep(ctx, steps[0]).value.ctx, steps[1..])))
  }

  lemma {:induction false} RunConcat(ctx: Ctx, a: seq<TransactionStep>, b: seq<TransactionStep>)
    ensures Run(ctx, a).Err? ==> Run(ctx, a + b).Err?
    ensures Run(ctx, a).Ok? ==>
      && Run(ctx, a + b).Ok? == Run(Run(ctx, a).value.ctx, b).Ok?
      && (Run(ctx, a + b).Ok? ==> Run(ctx, a + b).value.ctx == Run(Run(ctx, a).value.ctx, b).value.ctx)
    decreases |a|
  {
    hide ApplyStep;
    if a == [] {
      assert a + b == b;
    } else {
      assert (a + b)[1..] == a[1..] + b;
      if ApplyStep(ctx, a[0]).Ok? {
        RunConcat(ApplyStep(ctx, a[0]).value.ctx, a[1..], b);
      }
    }
  }

  lemma RunUnfolds(ctx: Ctx, steps: seq<TransactionStep>)
    requires steps != [] && Run(ctx, steps).Ok?
    ensures ApplyStep(ctx, steps[0]).Ok?
    ensures var first := ApplyStep(ctx, steps[0]).value; var rest := Run(first.ctx, steps[1..]);
      rest.Ok? && Run(ctx, steps).value
        == Applied(rest.value.ctx, first.maps + rest.value.maps, rest.value.inverse + first.inverse)
  {
    hide ApplyStep;
  }

  // Undo of a whole run of steps: replaying the reversed inverse groups
  // restores the state exactly if and only if every step was reversible.
  lemma {:induction false} UndoesRun(ctx: Ctx, steps: seq<TransactionStep>)
    requires TreeRun(ctx, steps)
    ensures Run(ctx, steps).Ok? && CtxOk(Run(ctx, steps).value.ctx)
    ensures var applied := Run(ctx, steps).value;
      && (ReversibleRun(ctx, steps) ==> Undoes(ctx, applied.ctx, applied.inverse))
      && (!ReversibleRun(ctx, steps) ==>
            forall nextId :: applied.ctx.nextId <= nextId < U64_LIMIT ==>
              Run(applied.ctx.(nextId := nextId), applied.inverse).Err?)
    decreases |steps|
  {
    hide CtxOk, WellTyped, ApplyStep, Reversible, UndoneFrom;
    if steps == [] {
      UndoesNothing(ctx);
    } else {
      var first := ApplyStep(ctx, steps[0]).value;
      TreeRunStarts(first.ctx, steps[1..]);
      UndoesRun(first.ctx, steps[1..]);
      UndoStep(ctx, steps[0]);
      var rest := Run(first.ctx, steps[1..]).value;
      var applied := Run(ctx, steps).value;
      RunUnfolds(ctx, steps);
      forall nextId | applied.ctx.nextId <= nextId < U64_LIMIT
        ensures ReversibleRun(ctx, steps) ==> UndoneFrom(ctx, applied.ctx.(nextId := nextId), applied.inverse)
        ensures !ReversibleRun(ctx, steps) ==> Run(applied.ctx.(nextId := nextId), applied.inverse).Err?
      {
        RunsKeepIds(first.ctx, steps[1..]);
        UndoTwo(ctx, first, rest, ReversibleRun(first.ctx, steps[1..]), Reversible(ctx, steps[0]), nextId);
      }
    }
  }

  lemma UndoesNothing(ctx: Ctx)
    ensures Undoes(ctx, ctx, [])
  {}

  lemma TreeRunStarts(ctx: Ctx, steps: seq<TransactionStep>)
    requires TreeRun(ctx, steps)
    ensures CtxOk(ctx)
  {}

  lemma {:induction false} UndoTwo(ctx: Ctx, first: Applied, rest: Applied, laterBack: bool, firstBack: bool,
                                   nextId: nat)
    requires first.ctx.nextId <= rest.ctx.nextId <= nextId < U64_LIMIT
    requires laterBack ==> UndoneFrom(first.ctx, rest.ctx.(nextId := nextId), rest.inverse)
    requires !laterBack ==> Run(rest.ctx.(nextId := nextId), rest.inverse).Err?
    requires firstBack ==> UndoneFrom(ctx, first.ctx.(nextId := nextId), first.inverse)
    requires !firstBack ==> Run(first.ctx.(nextId := nextId), first.inverse).Err?
    ensures firstBack && laterBack ==> UndoneFrom(ctx, rest.ctx.(nextId := nextId), rest.inverse + first.inverse)
    ensures !(firstBack && laterBack) ==> Run(rest.ctx.(nextId := nextId), rest.inverse + first.inverse).Err?
  {
    hide Run;
    RunConcat(rest.ctx.(nextId := nextId), rest.inverse, first.inverse);
  }

  // The allocator only moves up, and the root stays.
  lemma {:induction false} RestoreKeepsIds(ctx: Ctx, parent: NodeId, index: nat, root: NodeId, nodes: seq<Node>)
    requires ctx.nextId < U64_LIMIT && ApplyRestoreSubtree(ctx, parent, index, root, nodes).Ok?
    ensures ApplyRestoreSubtree(ctx, parent, index, root, nodes).value.ctx.root == ctx.root
    ensures ctx.nextId <= ApplyRestoreSubtree(ctx, parent, index, root, nodes).value.ctx.nextId < U64_LIMIT
  {
    hide NewNode, InsertId, PutNodes, CheckRestored;
    CheckedIdsDistinct(nodes, ctx.nextId);
  }

  lemma {:induction false} SplitKeepsIds(ctx: Ctx, at: InlinePoint, restored: Option<Node>, mixed: bool)
    requires ctx.nextId < U64_LIMIT && SplitInline(ctx, at, restored, mixed).Ok?
    ensures SplitInline(ctx, at, restored, mixed).value.ctx.root == ctx.root
    ensures ctx.nextId <= SplitInline(ctx, at, restored, mixed).value.ctx.nextId < U64_LIMIT
  {
    hide NewNode, InsertId, RewriteContent, SplitAt, ParentOf, PositionOf;
  }

  // The allocator only moves up, and the root stays.
  lemma {:induction false} StepKeepsIds(ctx: Ctx, step: TransactionStep)
    requires CtxOk(ctx) && ApplyStep(ctx, step).Ok?
    ensures ApplyStep(ctx, step).value.ctx.root == ctx.root
    ensures ctx.nextId <= ApplyStep(ctx, step).value.ctx.nextId < U64_LIMIT
  {
    hide CtxOk, TextReplaced, MarksChanged, Inherited, SpansOf, RewriteContent, Rewrite, NewNode, OffsetCheck;
    hide EditInline, InheritedMarks;
    hide ParentOf, AtomParentOf, Subtree, PayloadsOf, SortedIds, PutNodes, SplitAt, Joined, GapCheck, Attach, InsertId;
    hide SplitInline, ApplyRestoreSubtree, CountAt, AtomDetached, JoinGap, PositionOf, WithoutId;
    NextIdBound(ctx);
    match step {
      case RestoreSubtreeStep(parent, index, root, nodes) => RestoreKeepsIds(ctx, parent, index, root, nodes);
      case SplitNodeStep(node, offset) => SplitKeepsIds(ctx, InlinePoint(node, offset, 0, BeforeGlyph), None, false);
      case SplitInlineNodeStep(at) => SplitKeepsIds(ctx, at, None, true);
      case RestoreJoinedNodeStep(at, payload) =>
        SplitKeepsIds(ctx, at, Some(payload), ctx.store[at.node].content.inline.atoms != []);
      case _ =>
    }
  }

  lemma {:induction false} RunsKeepIds(ctx: Ctx, steps: seq<TransactionStep>)
    requires TreeRun(ctx, steps)
    ensures Run(ctx, steps).Ok? && Run(ctx, steps).value.ctx.root == ctx.root
    ensures ctx.nextId <= Run(ctx, steps).value.ctx.nextId < U64_LIMIT
    decreases |steps|
  {
    hide CtxOk, WellTyped, ApplyStep;
    TreeRunStarts(ctx, steps);
    if steps == [] {
      NextIdBound(ctx);
    } else {
      StepKeepsIds(ctx, steps[0]);
      RunsKeepIds(ApplyStep(ctx, steps[0]).value.ctx, steps[1..]);
    }
  }

  lemma NextIdBound(ctx: Ctx)
    requires CtxOk(ctx)
    ensures ctx.nextId < U64_LIMIT
  {
    hide IsTree;
  }
}
