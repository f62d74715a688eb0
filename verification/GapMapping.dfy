// Structural gap mapping follows the child lists
// (crates/xiaomu-core/src/mapping.rs).
module GapMapping {
  import opened Wrappers
  import opened Text
  import opened Marks
  import opened Content
  import opened InlineEdit
  import opened Flat
  import opened InlineLaws
  import opened Nodes
  import opened Mapping
  import opened Steps
  import opened Inverse
  import opened InputMarks
  import opened Structure
  import opened Tree
  import opened WorkingStore
  import opened Apply
  import opened UndoTree
  import opened UndoAtoms
  import opened UndoRun
  import opened TreeSteps

  // Child lists by parent.
  type Lists = map<NodeId, seq<NodeId>>

  // The two mapped gaps are the gaps around `child` in the new lists.
  predicate Brackets(lists: Lists, before: MappedPosition<NodeGap>, after: MappedPosition<NodeGap>, child: NodeId) {
    && before.Mapped? && after.Mapped?
    && var gap := before.position;
      && after.position == NodeGap(gap.parent, gap.index + 1)
      && gap.parent in lists && gap.index < |lists[gap.parent]| && lists[gap.parent][gap.index] == child
  }

  // The gap before a child leans right onto it, the gap after leans left.
  predicate KeepsChildGaps(m: StepMap, lists: Lists, edited: Lists, parent: NodeId, i: nat)
    requires parent in lists && i < |lists[parent]|
  {
    Brackets(edited, MapNodeGap(m, NodeGap(parent, i), End), MapNodeGap(m, NodeGap(parent, i + 1), Start),
        lists[parent][i])
  }

  function Without(ids: seq<NodeId>, index: nat): seq<NodeId>
    requires index < |ids|
  {
    ids[..index] + ids[index + 1..]
  }

  // ----- one child in, one child out

  lemma InsertionFollows(lists: Lists, parent: NodeId, index: nat, child: NodeId, p: NodeId, i: nat)
    requires parent in lists && index <= |lists[parent]| && p in lists && i < |lists[p]|
    ensures KeepsChildGaps(NodeInserted(parent, index, child), lists,
        lists[parent := InsertId(lists[parent], index, child)], p, i)
  {}

  lemma RemovalFollows(lists: Lists, parent: NodeId, index: nat, removed: set<NodeId>, p: NodeId, i: nat)
    requires parent in lists && index < |lists[parent]| && p in lists && i < |lists[p]|
    requires parent !in removed
    ensures p !in removed && !(p == parent && i == index) ==>
      KeepsChildGaps(NodeRemoved(parent, index, removed), lists,
          lists[parent := Without(lists[parent], index)] - removed, p, i)
    ensures p in removed ==> MapNodeGap(NodeRemoved(parent, index, removed), NodeGap(p, i), End).Deleted?
  {}

  // ----- one child moved

  function Reparent(lists: Lists, oldParent: NodeId, oldIndex: nat, newParent: NodeId, newIndex: nat): Lists
    requires oldParent in lists && oldIndex < |lists[oldParent]| && newParent in lists
    requires newIndex <= |lists[oldParent := Without(lists[oldParent], oldIndex)][newParent]|
  {
    var child := lists[oldParent][oldIndex];
    var taken := lists[oldParent := Without(lists[oldParent], oldIndex)];
    taken[newParent := InsertId(taken[newParent], newIndex, child)]
  }

  // Every other child keeps its gaps, within one parent or between two.
  lemma ReparentFollows(lists: Lists, node: NodeId, oldParent: NodeId, oldIndex: nat, newParent: NodeId,
                        newIndex: nat, p: NodeId, i: nat)
    requires oldParent in lists && oldIndex < |lists[oldParent]| && newParent in lists
    requires newIndex <= |lists[oldParent := Without(lists[oldParent], oldIndex)][newParent]|
    requires p in lists && i < |lists[p]| && !(p == oldParent && i == oldIndex)
    ensures KeepsChildGaps(NodeReparented(node, oldParent, oldIndex, newParent, newIndex), lists,
                    Reparent(lists, oldParent, oldIndex, newParent, newIndex), p, i)
  {
    hide InsertId, Without;
    var child := lists[oldParent][oldIndex];
    var taken := lists[oldParent := Without(lists[oldParent], oldIndex)];
    var k := if p == oldParent && i > oldIndex then i - 1 else i;
    WithoutAt(lists[oldParent], oldIndex);
    assert k < |taken[p]| && taken[p][k] == lists[p][i];
    InsertedAt(taken[newParent], newIndex, child);
  }

  lemma WithoutAt(ids: seq<NodeId>, index: nat)
    requires index < |ids|
    ensures |Without(ids, index)| == |ids| - 1
    ensures forall i :: 0 <= i < |ids| && i != index ==> Without(ids, index)[if i > index then i - 1 else i] == ids[i]
  {}

  lemma InsertedAt(ids: seq<NodeId>, index: nat, id: NodeId)
    requires index <= |ids|
    ensures |InsertId(ids, index, id)| == |ids| + 1
    ensures forall i :: 0 <= i < |ids| ==> InsertId(ids, index, id)[if i >= index then i + 1 else i] == ids[i]
  {}

  // ----- cells merged and restored

  // `absorbed` leaves its row and its children join the survivor's at `at`.
  function Merge(lists: Lists, row: NodeId, index: nat, survivor: NodeId, absorbed: NodeId, at: nat): Lists
    requires row in lists && survivor in lists && absorbed in lists
    requires index < |lists[row]| && at <= |lists[survivor]|
  {
    lists[row := Without(lists[row], index)]
      [survivor := lists[survivor][..at] + lists[absorbed] + lists[survivor][at..]] - {absorbed}
  }

  lemma {:induction false} MergeFollows(lists: Lists, row: NodeId, index: nat, survivor: NodeId, absorbed: NodeId,
                                        at: nat, p: NodeId, i: nat)
    requires row in lists && survivor in lists && absorbed in lists
    requires row != survivor && row != absorbed && survivor != absorbed
    requires index < |lists[row]| && at <= |lists[survivor]|
    requires p in lists && i < |lists[p]| && !(p == row && i == index)
    ensures KeepsChildGaps(TableCellMerged(row, index, survivor, absorbed, at, |lists[absorbed]|), lists,
                    Merge(lists, row, index, survivor, absorbed, at), p, i)
  {
    var grown := lists[survivor][..at] + lists[absorbed] + lists[survivor][at..];
    assert forall k :: 0 <= k < |lists[absorbed]| ==> grown[at + k] == lists[absorbed][k];
  }

  // The survivor gives back the children [at, at + count) and the restored cell
  // returns to its row.
  function Restore(lists: Lists, row: NodeId, index: nat, survivor: NodeId, restored: NodeId, at: nat,
                   count: nat): Lists
    requires row in lists && survivor in lists && index <= |lists[row]| && at + count <= |lists[survivor]|
  {
    lists[row := InsertId(lists[row], index, restored)]
      [survivor := lists[survivor][..at] + lists[survivor][at + count..]]
      [restored := lists[survivor][at..at + count]]
  }

  // Exactly when children return do all gaps follow: an empty cell claims the gaps
  // of the survivor's children next to `at`.
  lemma {:induction false} RestoreCellFollows(lists: Lists, row: NodeId, index: nat, survivor: NodeId,
                                              restored: NodeId, at: nat, count: nat, p: NodeId, i: nat)
    requires row in lists && survivor in lists && restored !in lists && row != survivor
    requires index <= |lists[row]| && at + count <= |lists[survivor]|
    requires p in lists && i < |lists[p]|
    ensures KeepsChildGaps(TableCellRestored(row, index, survivor, restored, at, count), lists,
                    Restore(lists, row, index, survivor, restored, at, count), p, i)
      <==> count > 0 || p != survivor || (i != at && i + 1 != at)
  {
    var rest := lists[survivor][..at] + lists[survivor][at + count..];
    assert forall k :: at + count <= k < |lists[survivor]| ==> rest[k - count] == lists[survivor][k];
  }

  // Merging and restoring undo each other on the lists.
  lemma RestoreUndoesMerge(lists: Lists, row: NodeId, index: nat, survivor: NodeId, absorbed: NodeId, at: nat)
    requires row in lists && survivor in lists && absorbed in lists
    requires row != survivor && row != absorbed && survivor != absorbed
    requires index < |lists[row]| && at <= |lists[survivor]| && lists[row][index] == absorbed
    ensures Restore(Merge(lists, row, index, survivor, absorbed, at), row, index, survivor, absorbed, at,
        |lists[absorbed]|) == lists
  {
    var merged := Merge(lists, row, index, survivor, absorbed, at);
    var back := Restore(merged, row, index, survivor, absorbed, at, |lists[absorbed]|);
    assert back[row] == lists[row];
    assert back[survivor] == lists[survivor];
    assert back[absorbed] == lists[absorbed];
  }

  // ----- the engine's steps

  // The child lists of a stored document.
  function ListsOf(store: Store): Lists {
    map id | id in store && store[id].content.Children? :: store[id].content.children
  }

  ghost predicate GapsFollow(ctx: Ctx, applied: Applied, parent: NodeId, i: nat)
    requires parent in ctx.store && ctx.store[parent].content.Children? && i < |ctx.store[parent].content.children|
  {
    var child := ctx.store[parent].content.children[i];
    && |applied.maps| <= 1
    && (child in applied.ctx.store ==>
          Brackets(ListsOf(applied.ctx.store), GapThrough(applied.maps, NodeGap(parent, i), End),
                   GapThrough(applied.maps, NodeGap(parent, i + 1), Start), child))
    && (parent !in applied.ctx.store ==> GapThrough(applied.maps, NodeGap(parent, i), End).Deleted?)
  }

  // `ChangeMap::map_node_gap`.
  function GapThrough(maps: seq<StepMap>, gap: NodeGap, bias: MapBias): MappedPosition<NodeGap> {
    if maps == [] then Mapped(gap)
    else match MapNodeGap(maps[0], gap, bias)
      case Mapped(next) => GapThrough(maps[1..], next, bias)
      case Deleted => Deleted
  }

  lemma GapThroughOne(m: StepMap, gap: NodeGap, bias: MapBias)
    ensures GapThrough([m], gap, bias) == MapNodeGap(m, gap, bias)
  {
    hide MapNodeGap;
    assert [m][1..] == [];
  }

  // The child lists a one-list insertion or removal leaves.
  lemma {:induction false} OneMapFollows(ctx: Ctx, applied: Applied, m: StepMap, parent: NodeId, i: nat, edited: Lists)
    requires parent in ctx.store && ctx.store[parent].content.Children? && i < |ctx.store[parent].content.children|
    requires applied.maps == [m]
    requires forall id :: id in edited ==>
      id in ListsOf(applied.ctx.store) && ListsOf(applied.ctx.store)[id] == edited[id]
    requires ctx.store[parent].content.children[i] in applied.ctx.store ==>
      KeepsChildGaps(m, ListsOf(ctx.store), edited, parent, i)
    requires parent !in applied.ctx.store ==> MapNodeGap(m, NodeGap(parent, i), End).Deleted?
    ensures GapsFollow(ctx, applied, parent, i)
  {
    hide MapNodeGap, GapThrough;
    GapThroughOne(m, NodeGap(parent, i), End);
    GapThroughOne(m, NodeGap(parent, i + 1), Start);
  }

  // Inserting one child into one list, whatever else is stored.
  lemma {:induction false} InsertedGaps(ctx: Ctx, applied: Applied, m: StepMap, at: NodeId, index: nat, id: NodeId,
                                        parent: NodeId, i: nat)
    requires parent in ctx.store && ctx.store[parent].content.Children? && i < |ctx.store[parent].content.children|
    requires at in ctx.store && ctx.store[at].content.Children? && index <= |ctx.store[at].content.children|
    requires applied.maps == [m]
    requires forall gap, bias :: MapNodeGap(m, gap, bias) == MapNodeGap(NodeInserted(at, index, id), gap, bias)
    requires forall x :: x in ctx.store && ctx.store[x].content.Children? && x != at ==>
      x in applied.ctx.store && applied.ctx.store[x].content == ctx.store[x].content
    requires at in applied.ctx.store
      && applied.ctx.store[at].content == Children(InsertId(ctx.store[at].content.children, index, id))
    ensures GapsFollow(ctx, applied, parent, i)
  {
    hide MapNodeGap, GapThrough, GapsFollow, InsertId, Brackets;
    var lists := ListsOf(ctx.store);
    InsertionFollows(lists, at, index, id, parent, i);
    OneMapFollows(ctx, applied, m, parent, i, lists[at := InsertId(lists[at], index, id)]);
  }

  // Removing one child and its subtree.
  lemma {:induction false} RemovedGaps(ctx: Ctx, applied: Applied, m: StepMap, at: NodeId, index: nat,
                                       removed: set<NodeId>, parent: NodeId, i: nat)
    requires parent in ctx.store && ctx.store[parent].content.Children? && i < |ctx.store[parent].content.children|
    requires at in ctx.store && ctx.store[at].content.Children? && index < |ctx.store[at].content.children|
      && at !in removed
    requires Distinct(ctx.store[parent].content.children)
    requires ctx.store[at].content.children[index] in removed
    requires parent in removed ==> ctx.store[parent].content.children[i] in removed
    requires applied.maps == [m]
    requires forall gap, bias :: MapNodeGap(m, gap, bias) == MapNodeGap(NodeRemoved(at, index, removed), gap, bias)
    requires applied.ctx.store.Keys == ctx.store.Keys - removed
    requires forall x :: x in ctx.store && ctx.store[x].content.Children? && x != at && x !in removed ==>
      applied.ctx.store[x].content == ctx.store[x].content
    requires at in applied.ctx.store
      && applied.ctx.store[at].content == Children(Without(ctx.store[at].content.children, index))
    ensures GapsFollow(ctx, applied, parent, i)
  {
    hide MapNodeGap, GapThrough, GapsFollow, Brackets, Distinct;
    var lists := ListsOf(ctx.store);
    RemovalFollows(lists, at, index, removed, parent, i);
    OneMapFollows(ctx, applied, m, parent, i, lists[at := Without(lists[at], index)] - removed);
  }

  lemma NoGapMoves(ctx: Ctx, applied: Applied, parent: NodeId, i: nat)
    requires parent in ctx.store && ctx.store[parent].content.Children? && i < |ctx.store[parent].content.children|
    requires |applied.maps| <= 1
    requires applied.maps != [] ==> forall gap, bias :: MapNodeGap(applied.maps[0], gap, bias) == Mapped(gap)
    requires parent in applied.ctx.store && applied.ctx.store[parent].content == ctx.store[parent].content
    ensures GapsFollow(ctx, applied, parent, i)
  {
    hide MapNodeGap;
    if applied.maps != [] {
      assert applied.maps == [applied.maps[0]];
      GapThroughOne(applied.maps[0], NodeGap(parent, i), End);
      GapThroughOne(applied.maps[0], NodeGap(parent, i + 1), Start);
    }
  }

  predicate HasChild(store: Store, parent: NodeId, i: nat) {
    parent in store && store[parent].content.Children? && i < |store[parent].content.children|
  }

  lemma {:induction false} InsertNodeGaps(ctx: Ctx, at: NodeId, index: nat, kind: NodeKind, attrs: NodeAttrs,
                                          content: NodeContent, parent: NodeId, i: nat)
    requires CtxOk(ctx) && ApplyInsertNode(ctx, at, index, kind, attrs, content).Ok? && HasChild(ctx.store, parent, i)
    ensures GapsFollow(ctx, ApplyInsertNode(ctx, at, index, kind, attrs, content).value, parent, i)
  {
    hide CtxOk, Validate, GapsFollow, InsertId;
    InsertedNodeFacts(ctx, at, index, kind, attrs, content);
    var applied := ApplyInsertNode(ctx, at, index, kind, attrs, content).value;
    InsertedGaps(ctx, applied, NodeInserted(at, index, ctx.nextId), at, index, ctx.nextId, parent, i);
  }

  lemma {:induction false} RestoreGaps(ctx: Ctx, at: NodeId, index: nat, root: NodeId, nodes: seq<Node>,
                                       parent: NodeId, i: nat)
    requires CtxOk(ctx) && ApplyRestoreSubtree(ctx, at, index, root, nodes).Ok? && HasChild(ctx.store, parent, i)
    ensures GapsFollow(ctx, ApplyRestoreSubtree(ctx, at, index, root, nodes).value, parent, i)
  {
    hide CtxOk, Validate, GapsFollow, InsertId, PutNodes, CheckRestored, DistinctIds;
    RestoredFacts(ctx, at, index, root, nodes);
    PutNodesMeans(ctx.store, nodes);
    var applied := ApplyRestoreSubtree(ctx, at, index, root, nodes).value;
    InsertedGaps(ctx, applied, NodeInserted(at, index, root), at, index, root, parent, i);
  }

  lemma {:induction false} RemoveNodeGaps(ctx: Ctx, node: NodeId, parent: NodeId, i: nat)
    requires CtxOk(ctx) && ApplyRemoveNode(ctx, node).Ok? && HasChild(ctx.store, parent, i)
    ensures GapsFollow(ctx, ApplyRemoveNode(ctx, node).value, parent, i)
  {
    hide IsTree, Validate, GapsFollow, Subtree, PayloadsOf, PositionOf, ParentOf, WithoutId, Distinct;
    RemovedNodeFacts(ctx, node);
    var at := ParentOf(ctx.store, node).value;
    var gone := Subtree(ctx.store, node);
    var applied := ApplyRemoveNode(ctx, node).value;
    var children := ctx.store[at].content.children;
    ChildrenDistinct(ctx.store, ctx.root, at);
    ChildrenDistinct(ctx.store, ctx.root, parent);
    InsertRemoved(children, node);
    var index := PositionOf(children, node).value;
    assert children[index] == node by { PositionHolds(children, node); }
    SubtreeInStore(ctx.store, ctx.root, node);
    SubtreeIsClosed(ctx.store, ctx.root, node);
    EdgeIsChildOrAtom(ctx.store, parent, ctx.store[parent].content.children[i]);
    RemovedGaps(ctx, applied, NodeRemoved(at, index, gone), at, index, gone, parent, i);
  }

  lemma {:induction false} SplitGaps(ctx: Ctx, at: InlinePoint, restored: Option<Node>, mixed: bool, parent: NodeId,
                                     i: nat)
    requires CtxOk(ctx) && SplitInline(ctx, at, restored, mixed).Ok? && HasChild(ctx.store, parent, i)
    ensures GapsFollow(ctx, SplitInline(ctx, at, restored, mixed).value, parent, i)
  {
    hide IsTree, Validate, GapsFollow, SplitAt, WfContent, SplitInline, ParentOf, PositionOf, InsertId;
    SplitFacts(ctx, at, restored, mixed);
    var applied := SplitInline(ctx, at, restored, mixed).value;
    var above := ParentOf(ctx.store, at.node).value;
    var id := if restored.Some? then restored.value.id else ctx.nextId;
    ChildHasPosition(ctx.store, above, at.node);
    var index := PositionOf(ctx.store[above].content.children, at.node).value + 1;
    InsertedGaps(ctx, applied, applied.maps[0], above, index, id, parent, i);
  }

  lemma {:induction false} JoinGaps(ctx: Ctx, first: NodeId, second: NodeId, parent: NodeId, i: nat)
    requires CtxOk(ctx) && ApplyJoinNodes(ctx, first, second).Ok? && HasChild(ctx.store, parent, i)
    ensures GapsFollow(ctx, ApplyJoinNodes(ctx, first, second).value, parent, i)
  {
    hide IsTree, Validate, GapsFollow, Joined, WfContent, ApplyJoinNodes, ParentOf, PositionOf, JoinGap, Distinct;
    JoinFacts(ctx, first, second);
    JoinResult(ctx, first, second);
    var applied := ApplyJoinNodes(ctx, first, second).value;
    var above := ParentOf(ctx.store, first).value;
    var children := ctx.store[above].content.children;
    var index := PositionOf(children, first).value + 1;
    ChildrenDistinct(ctx.store, ctx.root, parent);
    assert children[..index] + children[index + 1..] == Without(children, index);
    RemovedGaps(ctx, applied, applied.maps[0], above, index, {second}, parent, i);
  }

  // Text, marks, payloads and atoms move no structural gap.
  lemma {:induction false} StillGaps(ctx: Ctx, step: TransactionStep, parent: NodeId, i: nat)
    requires CtxOk(ctx) && ApplyStep(ctx, step).Ok? && HasChild(ctx.store, parent, i)
    requires step.ReplaceTextStep? || step.ReplaceInlineTextStep? || step.AddMarkStep? || step.RemoveMarkStep?
      || step.SetInlineAtomMarksStep? || step.SetNodeAttrsStep? || step.SetNodeKindStep?
    ensures GapsFollow(ctx, ApplyStep(ctx, step).value, parent, i)
  {
    hide IsTree, Validate, GapsFollow, ParentOf, AllowsChild, TextReplaced, InlineTextReplaced, MarksChanged;
    hide InheritedMarks, Inherited;
    hide SpansOf, Chars, ReplaceTextInverse, ReplaceInlineTextInverse, MarkChangeInverse, RangeCheck;
    var target := if step.ReplaceInlineTextStep? then step.at.node else if step.SetInlineAtomMarksStep? then step.atom
      else step.node;
    NodeInTree(ctx.store, ctx.root, target);
    NoGapMoves(ctx, ApplyStep(ctx, step).value, parent, i);
  }

  lemma {:induction false} InsertAtomGaps(ctx: Ctx, at: InlinePoint, kind: AtomKind, attrs: NodeAttrs,
                                          fallback: seq<byte>, marks: MarkSet, parent: NodeId, i: nat)
    requires CtxOk(ctx) && ApplyInsertInlineAtom(ctx, at, kind, attrs, fallback, marks).Ok?
      && HasChild(ctx.store, parent, i)
    ensures GapsFollow(ctx, ApplyInsertInlineAtom(ctx, at, kind, attrs, fallback, marks).value, parent, i)
  {
    hide CtxOk, Validate, GapsFollow, AtomAttached, GapCheck, Attach;
    InsertedAtomFacts(ctx, at, kind, attrs, fallback, marks);
    NoGapMoves(ctx, ApplyInsertInlineAtom(ctx, at, kind, attrs, fallback, marks).value, parent, i);
  }

  lemma {:induction false} RestoreAtomGaps(ctx: Ctx, at: InlinePoint, payload: Node, parent: NodeId, i: nat)
    requires CtxOk(ctx) && ApplyRestoreInlineAtom(ctx, at, payload).Ok? && HasChild(ctx.store, parent, i)
    ensures GapsFollow(ctx, ApplyRestoreInlineAtom(ctx, at, payload).value, parent, i)
  {
    hide CtxOk, Validate, GapsFollow, AtomAttached, GapCheck, Attach;
    RestoredAtomFacts(ctx, at, payload);
    NoGapMoves(ctx, ApplyRestoreInlineAtom(ctx, at, payload).value, parent, i);
  }

  lemma {:induction false} RemoveAtomGaps(ctx: Ctx, atom: NodeId, parent: NodeId, i: nat)
    requires CtxOk(ctx) && ApplyRemoveInlineAtom(ctx, atom).Ok? && HasChild(ctx.store, parent, i)
    ensures GapsFollow(ctx, ApplyRemoveInlineAtom(ctx, atom).value, parent, i)
  {
    hide CtxOk, Validate, GapsFollow, ApplyRemoveInlineAtom, AtomParentOf, PositionOf, Identities, GapBefore, WfContent;
    RemovedAtomFacts(ctx, atom);
    NoGapMoves(ctx, ApplyRemoveInlineAtom(ctx, atom).value, parent, i);
  }

  lemma {:induction false} SplitNodeGaps(ctx: Ctx, node: NodeId, offset: nat, parent: NodeId, i: nat)
    requires CtxOk(ctx) && ApplySplitNode(ctx, node, offset).Ok? && HasChild(ctx.store, parent, i)
    ensures GapsFollow(ctx, ApplySplitNode(ctx, node, offset).value, parent, i)
  {
    hide CtxOk, SplitInline, OffsetCheck, GapsFollow;
    SplitGaps(ctx, InlinePoint(node, offset, 0, BeforeGlyph), None, false, parent, i);
  }

  lemma {:induction false} RestoreJoinedGaps(ctx: Ctx, at: InlinePoint, payload: Node, parent: NodeId, i: nat)
    requires CtxOk(ctx) && ApplyRestoreJoinedNode(ctx, at, payload).Ok? && HasChild(ctx.store, parent, i)
    ensures GapsFollow(ctx, ApplyRestoreJoinedNode(ctx, at, payload).value, parent, i)
  {
    hide CtxOk, SplitInline, GapsFollow;
    SplitGaps(ctx, at, Some(payload), ctx.store[at.node].content.inline.atoms != [], parent, i);
  }

  // Every step's map takes the gaps around a surviving child to its new gaps.
  lemma {:induction false} StepGapsFollow(ctx: Ctx, step: TransactionStep, parent: NodeId, i: nat)
    requires CtxOk(ctx) && ApplyStep(ctx, step).Ok? && HasChild(ctx.store, parent, i)
    ensures GapsFollow(ctx, ApplyStep(ctx, step).value, parent, i)
  {
    hide CtxOk, GapsFollow, ApplyReplaceText, ApplyReplaceInlineText, ApplyMarkChange, ApplyInsertInlineAtom;
    hide ApplyRemoveInlineAtom, ApplySetInlineAtomMarks, ApplyRestoreInlineAtom, ApplyInsertNode, ApplyRestoreSubtree;
    hide ApplyRemoveNode, ApplySetNodeAttrs, ApplySetNodeKind, ApplySplitNode, SplitInline, ApplyRestoreJoinedNode;
    hide ApplyJoinNodes;
    match step {
      case InsertInlineAtomStep(at, kind, attrs, fallback, marks) => InsertAtomGaps(ctx, at, kind, attrs, fallback,
          marks, parent, i);
      case RemoveInlineAtomStep(atom) => RemoveAtomGaps(ctx, atom, parent, i);
      case RestoreInlineAtomStep(at, payload) => RestoreAtomGaps(ctx, at, payload, parent, i);
      case InsertNodeStep(at, index, kind, attrs, content) => InsertNodeGaps(ctx, at, index, kind, attrs, content,
          parent, i);
      case RestoreSubtreeStep(at, index, root, nodes) => RestoreGaps(ctx, at, index, root, nodes, parent, i);
      case RemoveNodeStep(node) => RemoveNodeGaps(ctx, node, parent, i);
      case SplitNodeStep(node, offset) => SplitNodeGaps(ctx, node, offset, parent, i);
      case SplitInlineNodeStep(at) => SplitGaps(ctx, at, None, true, parent, i);
      case RestoreJoinedNodeStep(at, payload) => RestoreJoinedGaps(ctx, at, payload, parent, i);
      case JoinNodesStep(first, second) => JoinGaps(ctx, first, second, parent, i);
      case _ => StillGaps(ctx, step, parent, i);
    }
  }
}
