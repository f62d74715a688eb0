// What a whole run does to the payload of a node that stays: its kind, its
// attributes and its atom marks are those the last step naming it gave it
// (crates/xiaomu-core/src/transaction/apply.rs:88-205, 463-498).
module PayloadLaws {
  import opened Wrappers
  import opened Text
  import opened Marks
  import opened Content
  import opened InlineEdit
  import opened Flat
  import opened Nodes
  import opened Mapping
  import opened Steps
  import opened Tree
  import opened WorkingStore
  import opened Apply
  import opened Undo
  import opened UndoRun
  import opened StepEffects

  function KindAfter(step: TransactionStep, id: NodeId, kind: NodeKind): NodeKind {
    if step.SetNodeKindStep? && step.node == id then step.kind else kind
  }

  function AttrsAfter(step: TransactionStep, id: NodeId, attrs: NodeAttrs): NodeAttrs {
    if step.SetNodeAttrsStep? && step.node == id then step.attrs else attrs
  }

  function MarksAfter(step: TransactionStep, id: NodeId, marks: MarkSet): MarkSet {
    if step.SetInlineAtomMarksStep? && step.atom == id then step.marks else marks
  }

  // The payload of one node before and after a step.
  ghost predicate Keeps(step: TransactionStep, id: NodeId, before: Node, after: Node) {
    && after.id == before.id && after.kind == KindAfter(step, id, before.kind)
    && after.attrs == AttrsAfter(step, id, before.attrs)
    && (before.content.Inline? <==> after.content.Inline?)
    && (before.content.Children? <==> after.content.Children?)
    && (before.content.AtomPayload? ==>
          after.content == AtomPayload(before.content.fallback, MarksAfter(step, id, before.content.marks)))
    && (before.content.Atomic? ==> after.content.Atomic?)
  }

  lemma {:induction false} EditKeepsPayload(ctx: Ctx, step: TransactionStep, id: NodeId)
    requires CtxOk(ctx) && WellTyped(step) && ApplyStep(ctx, step).Ok?
    requires id in ctx.store && id in ApplyStep(ctx, step).value.ctx.store
    requires step.ReplaceTextStep? || step.ReplaceInlineTextStep? || step.AddMarkStep? || step.RemoveMarkStep?
      || step.SetInlineAtomMarksStep? || step.SetNodeAttrsStep? || step.SetNodeKindStep?
    ensures Keeps(step, id, ctx.store[id], ApplyStep(ctx, step).value.ctx.store[id])
  {
    hide CtxOk, ApplyReplaceText, ApplyReplaceInlineText, ApplyMarkChange, ApplyInsertInlineAtom, CanReturn;
    hide ApplyRemoveInlineAtom, ApplySetInlineAtomMarks, ApplyRestoreInlineAtom, ApplyInsertNode, ApplyRestoreSubtree;
    hide ApplyRemoveNode, ApplySetNodeAttrs, ApplySetNodeKind, ApplySplitNode, SplitInline, ApplyRestoreJoinedNode;
    hide ApplyJoinNodes, ValidUtf8, NodeOk, Validate, ReplacesItems, Cuts, Concatenates, ItemGone, RaisedTo, HoldsRest;
    hide InRange, SeamAccepts, ClearOfAtoms, IsGap, IsChild, WfContent, Remarked, Chars, CaretIndex, TextMarks, Ids;
    hide NextSibling, PlacesAtom, Marked, Texts, ContentOk;
    match step {
      case ReplaceTextStep(node, start, end, text) => TextIsReplaced(ctx, node, start, end, text);
      case ReplaceInlineTextStep(at, end, text) => InlineTextIsReplaced(ctx, at, end, text);
      case SetInlineAtomMarksStep(atom, marks) => AtomMarksAreSet(ctx, atom, marks);
      case SetNodeAttrsStep(node, attrs) => AttrsAreSet(ctx, node, attrs);
      case SetNodeKindStep(node, kind) => KindIsSet(ctx, node, kind);
      case AddMarkStep(node, start, end, mark) => MarksAreChanged(ctx, node, start, end, Add(mark));
      case RemoveMarkStep(node, start, end, kind) => MarksAreChanged(ctx, node, start, end, Remove(kind));
    }
  }

  lemma {:induction false} PlacementKeepsPayload(ctx: Ctx, step: TransactionStep, id: NodeId)
    requires CtxOk(ctx) && WellTyped(step) && ApplyStep(ctx, step).Ok?
    requires id in ctx.store && id in ApplyStep(ctx, step).value.ctx.store
    requires step.InsertInlineAtomStep? || step.RemoveInlineAtomStep? || step.RestoreInlineAtomStep?
      || step.InsertNodeStep? || step.RemoveNodeStep? || step.RestoreSubtreeStep?
    ensures Keeps(step, id, ctx.store[id], ApplyStep(ctx, step).value.ctx.store[id])
  {
    hide CtxOk, ApplyReplaceText, ApplyReplaceInlineText, ApplyMarkChange, ApplyInsertInlineAtom, CanReturn;
    hide ApplyRemoveInlineAtom, ApplySetInlineAtomMarks, ApplyRestoreInlineAtom, ApplyInsertNode, ApplyRestoreSubtree;
    hide ApplyRemoveNode, ApplySetNodeAttrs, ApplySetNodeKind, ApplySplitNode, SplitInline, ApplyRestoreJoinedNode;
    hide ApplyJoinNodes, ValidUtf8, NodeOk, Validate, ReplacesItems, Cuts, Concatenates, ItemGone, RaisedTo, HoldsRest;
    hide InRange, SeamAccepts, ClearOfAtoms, IsGap, IsChild, WfContent, Remarked, Chars, CaretIndex, TextMarks, Ids;
    hide NextSibling, PlacesAtom, Marked, Texts, ContentOk;
    match step {
      case InsertInlineAtomStep(at, kind, attrs, fallback, marks) =>
        AtomIsInserted(ctx, at, kind, attrs, fallback, marks);
      case RemoveInlineAtomStep(atom) => AtomIsRemoved(ctx, atom);
      case RestoreInlineAtomStep(at, payload) => AtomIsRestored(ctx, at, payload);
      case InsertNodeStep(parent, index, kind, attrs, content) =>
        NodeIsInserted(ctx, parent, index, kind, attrs, content);
      case RestoreSubtreeStep(parent, index, root, nodes) => SubtreeIsRestored(ctx, parent, index, root, nodes);
      case RemoveNodeStep(node) => NodeIsRemoved(ctx, node);
    }
  }

  lemma {:induction false} SplitKeepsPayload(ctx: Ctx, step: TransactionStep, id: NodeId)
    requires CtxOk(ctx) && WellTyped(step) && ApplyStep(ctx, step).Ok?
    requires id in ctx.store && id in ApplyStep(ctx, step).value.ctx.store
    requires step.SplitNodeStep? || step.SplitInlineNodeStep? || step.RestoreJoinedNodeStep? || step.JoinNodesStep?
    ensures Keeps(step, id, ctx.store[id], ApplyStep(ctx, step).value.ctx.store[id])
  {
    hide CtxOk, ApplyReplaceText, ApplyReplaceInlineText, ApplyMarkChange, ApplyInsertInlineAtom, CanReturn;
    hide ApplyRemoveInlineAtom, ApplySetInlineAtomMarks, ApplyRestoreInlineAtom, ApplyInsertNode, ApplyRestoreSubtree;
    hide ApplyRemoveNode, ApplySetNodeAttrs, ApplySetNodeKind, ApplySplitNode, SplitInline, ApplyRestoreJoinedNode;
    hide ApplyJoinNodes, ValidUtf8, NodeOk, Validate, ReplacesItems, Cuts, Concatenates, ItemGone, RaisedTo, HoldsRest;
    hide InRange, SeamAccepts, ClearOfAtoms, IsGap, IsChild, WfContent, Remarked, Chars, CaretIndex, TextMarks, Ids;
    hide NextSibling, PlacesAtom, Marked, Texts, ContentOk;
    match step {
      case SplitNodeStep(node, offset) => NodeIsSplit(ctx, node, offset);
      case SplitInlineNodeStep(at) => InlineNodeIsSplit(ctx, at);
      case RestoreJoinedNodeStep(at, payload) => JoinedNodeIsRestored(ctx, at, payload);
      case JoinNodesStep(first, second) => NodesAreJoined(ctx, first, second);
    }
  }

  lemma {:induction false} StepKeepsPayload(ctx: Ctx, step: TransactionStep, id: NodeId)
    requires CtxOk(ctx) && WellTyped(step) && ApplyStep(ctx, step).Ok?
    requires id in ctx.store && id in ApplyStep(ctx, step).value.ctx.store
    ensures Keeps(step, id, ctx.store[id], ApplyStep(ctx, step).value.ctx.store[id])
  {
    hide CtxOk, WellTyped, ApplyStep, Keeps;
    if step.SplitNodeStep? || step.SplitInlineNodeStep? || step.RestoreJoinedNodeStep? || step.JoinNodesStep? {
      SplitKeepsPayload(ctx, step, id);
    } else if step.InsertInlineAtomStep? || step.RemoveInlineAtomStep? || step.RestoreInlineAtomStep?
      || step.InsertNodeStep? || step.RemoveNodeStep? || step.RestoreSubtreeStep? {
      PlacementKeepsPayload(ctx, step, id);
    } else {
      EditKeepsPayload(ctx, step, id);
    }
  }

  // ----- runs

  // The node is stored before and after every step.
  ghost predicate Stays(ctx: Ctx, steps: seq<TransactionStep>, id: NodeId)
    decreases |steps|
  {
    && id in ctx.store
    && (steps != [] && ApplyStep(ctx, steps[0]).Ok? ==> Stays(ApplyStep(ctx, steps[0]).value.ctx, steps[1..], id))
  }

  function KindOver(steps: seq<TransactionStep>, id: NodeId, kind: NodeKind): NodeKind {
    if steps == [] then kind else KindOver(steps[1..], id, KindAfter(steps[0], id, kind))
  }

  function AttrsOver(steps: seq<TransactionStep>, id: NodeId, attrs: NodeAttrs): NodeAttrs {
    if steps == [] then attrs else AttrsOver(steps[1..], id, AttrsAfter(steps[0], id, attrs))
  }

  function MarksOver(steps: seq<TransactionStep>, id: NodeId, marks: MarkSet): MarkSet {
    if steps == [] then marks else MarksOver(steps[1..], id, MarksAfter(steps[0], id, marks))
  }

  lemma {:induction false} RunKeepsPayload(ctx: Ctx, steps: seq<TransactionStep>, id: NodeId)
    requires TreeRun(ctx, steps) && Stays(ctx, steps, id)
    ensures Run(ctx, steps).Ok? && id in Run(ctx, steps).value.ctx.store
    ensures var before, after := ctx.store[id], Run(ctx, steps).value.ctx.store[id];
      && after.id == before.id
      && after.kind == KindOver(steps, id, before.kind) && after.attrs == AttrsOver(steps, id, before.attrs)
      && (before.content.Inline? <==> after.content.Inline?) && (before.content.Children? <==> after.content.Children?)
      && (before.content.AtomPayload? ==>
            after.content == AtomPayload(before.content.fallback, MarksOver(steps, id, before.content.marks)))
    decreases |steps|
  {
    hide CtxOk, WellTyped, ApplyStep, KindAfter, AttrsAfter, MarksAfter;
    if steps != [] {
      var next := ApplyStep(ctx, steps[0]).value.ctx;
      RunKeepsPayload(next, steps[1..], id);
      StepKeepsPayload(ctx, steps[0], id);
    }
  }

  // A run that names a node in no attribute step leaves its attributes alone,
  // and so for its kind and its marks.
  lemma {:induction false} UnnamedIsKept(steps: seq<TransactionStep>, id: NodeId, node: Node, marks: MarkSet)
    ensures (forall k :: 0 <= k < |steps| ==> !(steps[k].SetNodeAttrsStep? && steps[k].node == id)) ==>
      AttrsOver(steps, id, node.attrs) == node.attrs
    ensures (forall k :: 0 <= k < |steps| ==> !(steps[k].SetNodeKindStep? && steps[k].node == id)) ==>
      KindOver(steps, id, node.kind) == node.kind
    ensures (forall k :: 0 <= k < |steps| ==> !(steps[k].SetInlineAtomMarksStep? && steps[k].atom == id)) ==>
      MarksOver(steps, id, marks) == marks
  {
    if steps != [] {
      var rest := steps[1..];
      assert forall k :: 0 <= k < |rest| ==> rest[k] == steps[k + 1];
      UnnamedIsKept(rest, id, node.(kind := KindAfter(steps[0], id, node.kind),
        attrs := AttrsAfter(steps[0], id, node.attrs)), MarksAfter(steps[0], id, marks));
    }
  }
}
