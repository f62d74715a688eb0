// Undo and redo without end: the inverse of a run is itself a run of the same
// kind, so it can be undone in turn; and the one case where undo is refused.
module History {
  import opened Wrappers
  import opened Text
  import opened Marks
  import opened Content
  import opened InlineEdit
  import opened Flat
  import opened InlineLaws
  import opened Nodes
  import opened InputMarks
  import opened Mapping
  import opened Steps
  import opened Inverse
  import opened InlineUndo
  import opened Structure
  import opened Tree
  import opened Apply
  import opened Undo
  import opened UndoTree
  import opened UndoRun
  import opened TreeSteps

  // ----- inverse steps are sound steps

  ghost predicate Sound(step: TransactionStep) {
    WellTyped(step) && SelfContained(step)
  }

  ghost predicate AllSound(steps: seq<TransactionStep>) {
    forall k :: 0 <= k < |steps| ==> Sound(steps[k])
  }

  lemma MarkStepsAreSound(node: NodeId, ops: seq<MarkOp>)
    ensures AllSound(StepsOf(node, ops))
  {}

  lemma SoundConcat(a: seq<TransactionStep>, b: seq<TransactionStep>)
    requires AllSound(a) && AllSound(b)
    ensures AllSound(a + b)
  {
    hide Sound;
  }

  // The text an edit removed is text.
  lemma {:induction false} RemovedTextIsText(c: InlineContent, start: nat, end: nat)
    requires WfContent(c) && RangeCheck(Chars(c.runs), start, end).Pass?
    ensures ValidUtf8(SpansText(SpansOf(c.runs, start, end)))
  {
    hide Chars, ValidUtf8, SpansText, SpansOf;
    var cs := Chars(c.runs);
    RangeInText(cs, start, end);
    SpansCover(c.runs, start, end);
    SpansTextIsBytes(cs, SpansOf(c.runs, start, end), start, end);
    assert Bytes(cs[start..end]) == Bytes(cs)[start..end];
    SliceValid(Bytes(cs), start, end);
  }

  lemma EmptyIsText()
    ensures ValidUtf8([])
  {}

  lemma ReplaceInverseIsSound(n: NodeId, back: TransactionStep, strip: seq<MarkOp>, add: seq<MarkOp>)
    requires Sound(back)
    ensures AllSound([back]) && AllSound([back] + StepsOf(n, strip) + StepsOf(n, add))
  {
    hide Sound;
    MarkStepsAreSound(n, strip);
    MarkStepsAreSound(n, add);
    SoundConcat([back], StepsOf(n, strip));
    SoundConcat([back] + StepsOf(n, strip), StepsOf(n, add));
  }

  lemma {:induction false} TextInverseIsSound(ctx: Ctx, node: NodeId, start: nat, end: nat, text: seq<byte>)
    requires CtxOk(ctx) && ApplyReplaceText(ctx, node, start, end, text).Ok?
    ensures AllSound(ApplyReplaceText(ctx, node, start, end, text).value.inverse)
  {
    hide CtxOk, IsTree, WfContent, TextReplaced, Inherited, SpansOf, SpansText, Chars, StripOps, SpanOps, StepsOf;
    hide ValidUtf8, RangeCheck, AllSound;
    hide RewriteContent;
    CtxIsTree(ctx);
    TreeKnowsAtoms(ctx.store, ctx.root, node);
    var c := ctx.store[node].content.inline;
    var next := TextReplaced(c, start, end, text).value;
    ReplacedInRange(c, start, end, text);
    RemovedTextIsText(c, start, end);
    var spans := SpansOf(c.runs, start, end);
    var inherited := Inherited(Chars(next.runs), start);
    var removed := SpansText(spans);
    EmptyIsText();
    ReplaceInverseIsSound(node, ReplaceTextStep(node, start, start + |text|, []), [], []);
    ReplaceInverseIsSound(node, ReplaceTextStep(node, start, start + |text|, removed),
                          StripOps(inherited.marks, start, start + |removed|), SpanOps(spans, None));
  }

  lemma ReplacedInRange(c: InlineContent, start: nat, end: nat, text: seq<byte>)
    requires TextReplaced(c, start, end, text).Ok?
    ensures RangeCheck(Chars(c.runs), start, end).Pass?
  {
    hide Chars, Inherited, FirstAt, ClearFrom;
  }

  lemma {:induction false} InlineInverseIsSound(ctx: Ctx, at: InlinePoint, end: nat, text: seq<byte>)
    requires CtxOk(ctx) && ApplyReplaceInlineText(ctx, at, end, text).Ok?
    ensures AllSound(ApplyReplaceInlineText(ctx, at, end, text).value.inverse)
  {
    hide CtxOk, IsTree, WfContent, InlineTextReplaced, InheritedMarks, SpansOf, SpansText, Chars, StripOps, SpanOps;
    hide StepsOf, ValidUtf8, RangeCheck, AllSound;
    hide RewriteContent;
    CtxIsTree(ctx);
    TreeKnowsAtoms(ctx.store, ctx.root, at.node);
    var c := ctx.store[at.node].content.inline;
    var next := EditInline(ctx.store, c, ReplaceInlineTextStep(at, end, text)).value;
    var restored := InheritedMarks(ctx.store, next, CaretOf(at)).value;
    RemovedTextIsText(c, at.offset, end);
    var spans := SpansOf(c.runs, at.offset, end);
    var removed := SpansText(spans);
    EmptyIsText();
    ReplaceInverseIsSound(at.node, ReplaceInlineTextStep(at, at.offset + |text|, []), [], []);
    ReplaceInverseIsSound(at.node, ReplaceInlineTextStep(at, at.offset + |text|, removed),
                          StripOps(restored.marks, at.offset, at.offset + |removed|), SpanOps(spans, None));
  }

  lemma {:induction false} MarkInverseIsSound(node: NodeId, start: nat, end: nat, change: MarkChange,
                                              spans: seq<InlineSpan>)
    ensures AllSound(MarkChangeInverse(node, start, end, change, spans))
  {
    hide SpanOps, StepsOf, AllSound;
    match change {
      case Add(mark) =>
        MarkStepsAreSound(node, SpanOps(spans, Some(mark.Kind())));
        NoStepsSound();
        ReplaceInverseIsSound(node, RemoveMarkStep(node, start, end, mark.Kind()), [], []);
        SoundConcat([RemoveMarkStep(node, start, end, mark.Kind())], StepsOf(node, SpanOps(spans, Some(mark.Kind()))));
      case Remove(kind) =>
        MarkStepsAreSound(node, SpanOps(spans, Some(kind)));
    }
  }

  lemma NoStepsSound()
    ensures AllSound([])
  {}

  // The payloads of a removal are a tree below the removed node.
  lemma {:induction false} RemovedPayloadIsSound(ctx: Ctx, node: NodeId)
    requires CtxOk(ctx) && ApplyRemoveNode(ctx, node).Ok? && CtxOk(ApplyRemoveNode(ctx, node).value.ctx)
    ensures AllSound(ApplyRemoveNode(ctx, node).value.inverse)
  {
    hide CtxOk, IsTree, NodeOk, ParentOf, Subtree, PayloadsOf, PositionOf, PayloadStore, RewriteContent, WithoutId;
    hide ApplyRestoreSubtree;
    hide PlacesAtom, Undoes;
    var applied := ApplyRemoveNode(ctx, node).value;
    var nodes := PayloadsOf(ctx.store, SortedIds(Subtree(ctx.store, node)));
    var parent := ParentOf(ctx.store, node).value;
    var index := PositionOf(ctx.store[parent].content.children, node).value;
    CtxIsTree(ctx);
    assert node in ctx.store by { ParentFound(ctx.store, ctx.root, node); }
    RecordedNodesOk(ctx.store, ctx.root, node);
    UndoRemoveNode(ctx, node);
    RestoredByUndo(ctx, applied.ctx, RestoreSubtreeStep(parent, index, node, nodes));
    RestoreKeepsTree(applied.ctx, parent, index, node, nodes);
  }

  lemma RestoredByUndo(before: Ctx, after: Ctx, step: TransactionStep)
    requires CtxOk(before) && CtxOk(after) && Undoes(before, after, [step]) && before.nextId <= after.nextId
    requires step.RestoreSubtreeStep?
    ensures ApplyRestoreSubtree(after, step.parent, step.index, step.root, step.nodes).Ok?
    ensures CtxOk(ApplyRestoreSubtree(after, step.parent, step.index, step.root, step.nodes).value.ctx)
  {
    hide IsTree, ApplyRestoreSubtree, Run;
    assert after.(nextId := after.nextId) == after;
    assert UndoneFrom(before, after, [step]);
    RunOne(after, step);
  }

  lemma {:induction false} RecordedNodesOk(store: Store, root: NodeId, node: NodeId)
    requires IsTree(store, root) && node in store
    ensures forall i :: 0 <= i < |PayloadsOf(store, SortedIds(Subtree(store, node)))| ==>
      NodeOk(PayloadsOf(store, SortedIds(Subtree(store, node)))[i])
  {
    hide IsTree, NodeOk, Subtree, PayloadsOf;
    RecordedPayloads(store, root, node);
    var nodes := PayloadsOf(store, SortedIds(Subtree(store, node)));
    forall i | 0 <= i < |nodes|
      ensures NodeOk(nodes[i])
    {
      NodeInTree(store, root, nodes[i].id);
    }
  }

  lemma OneSound(step: TransactionStep)
    requires Sound(step)
    ensures AllSound([step])
  {
    hide Sound;
  }

  // The text and mark steps.
  lemma {:induction false} EditInverseIsSound(ctx: Ctx, step: TransactionStep)
    requires CtxOk(ctx) && WellTyped(step) && ApplyStep(ctx, step).Ok?
    requires step.ReplaceTextStep? || step.ReplaceInlineTextStep? || step.AddMarkStep? || step.RemoveMarkStep?
    ensures AllSound(ApplyStep(ctx, step).value.inverse)
  {
    hide CtxOk, AllSound, ApplyReplaceText, ApplyReplaceInlineText, ApplyMarkChange, MarkChangeInverse, SpansOf;
    match step {
      case ReplaceTextStep(node, start, end, text) => TextInverseIsSound(ctx, node, start, end, text);
      case ReplaceInlineTextStep(at, end, text) => InlineInverseIsSound(ctx, at, end, text);
      case AddMarkStep(node, start, end, mark) => ChangeInverseIsSound(ctx, node, start, end, Add(mark));
      case RemoveMarkStep(node, start, end, kind) => ChangeInverseIsSound(ctx, node, start, end, Remove(kind));
    }
  }

  lemma {:induction false} ChangeInverseIsSound(ctx: Ctx, node: NodeId, start: nat, end: nat, change: MarkChange)
    requires ApplyMarkChange(ctx, node, start, end, change).Ok?
    ensures AllSound(ApplyMarkChange(ctx, node, start, end, change).value.inverse)
  {
    hide AllSound, MarkChangeInverse, SpansOf, MarksChanged, RewriteContent;
    MarkInverseIsSound(node, start, end, change, SpansOf(ctx.store[node].content.inline.runs, start, end));
  }

  // Every generated inverse step is sound.
  lemma {:induction false} InverseIsSound(ctx: Ctx, step: TransactionStep)
    requires CtxOk(ctx) && WellTyped(step) && ApplyStep(ctx, step).Ok? && CtxOk(ApplyStep(ctx, step).value.ctx)
    ensures AllSound(ApplyStep(ctx, step).value.inverse)
  {
    hide CtxOk, IsTree, NodeOk, ValidUtf8, AllSound, PayloadStore, ParentOf, AtomParentOf, SplitAt, Joined, PositionOf;
    hide ApplyReplaceText, ApplyReplaceInlineText, ApplyMarkChange, Rewrite, RewriteContent, ContentOk;
    hide ApplyRemoveNode, Allocate, Attach, GapCheck, GrowTail, CheckRestored, PutNodes, AtomDetached, JoinGap;
    hide CountAt, OffsetCheck;
    CtxIsTree(ctx);
    var inverse := ApplyStep(ctx, step).value.inverse;
    match step {
      case ReplaceTextStep(_, _, _, _) => EditInverseIsSound(ctx, step);
      case ReplaceInlineTextStep(_, _, _) => EditInverseIsSound(ctx, step);
      case AddMarkStep(_, _, _, _) => EditInverseIsSound(ctx, step);
      case RemoveMarkStep(_, _, _, _) => EditInverseIsSound(ctx, step);
      case SetInlineAtomMarksStep(atom, _) =>
        NodeInTree(ctx.store, ctx.root, atom);
        PayloadMarksValid(ctx.store[atom]);
        OneSound(inverse[0]);
      case RemoveInlineAtomStep(atom) =>
        NodeInTree(ctx.store, ctx.root, atom);
        OneSound(inverse[0]);
      case JoinNodesStep(first, second) =>
        NodeInTree(ctx.store, ctx.root, second);
        OneSound(inverse[0]);
      case RemoveNodeStep(node) => RemovedPayloadIsSound(ctx, node);
      case _ => OneSound(inverse[0]);
    }
  }

  lemma PayloadMarksValid(node: Node)
    requires NodeOk(node) && node.content.AtomPayload?
    ensures node.content.marks.Valid()
  {
    hide WfContent;
  }

  // ----- undo can itself be undone

  lemma TreeRunConcat(ctx: Ctx, a: seq<TransactionStep>, b: seq<TransactionStep>)
    requires TreeRun(ctx, a) && Run(ctx, a).Ok? && TreeRun(Run(ctx, a).value.ctx, b)
    requires ReversibleRun(ctx, a) && ReversibleRun(Run(ctx, a).value.ctx, b)
    ensures TreeRun(ctx, a + b) && ReversibleRun(ctx, a + b)
    decreases |a|
  {
    hide CtxOk, WellTyped, ApplyStep, Reversible;
    if a == [] {
      assert a + b == b;
    } else {
      assert (a + b)[1..] == a[1..] + b && (a + b)[0] == a[0];
      TreeRunConcat(ApplyStep(ctx, a[0]).value.ctx, a[1..], b);
    }
  }

  lemma {:induction false} WithoutKindsReversible(ctx: Ctx, steps: seq<TransactionStep>)
    requires forall k :: 0 <= k < |steps| ==> !steps[k].SetNodeKindStep?
    ensures ReversibleRun(ctx, steps)
    decreases |steps|
  {
    hide ApplyStep, KindWasAllowed;
    if steps != [] && ApplyStep(ctx, steps[0]).Ok? {
      WithoutKindsReversible(ApplyStep(ctx, steps[0]).value.ctx, steps[1..]);
    }
  }

  lemma StepsOfKinds(node: NodeId, ops: seq<MarkOp>)
    ensures forall k :: 0 <= k < |StepsOf(node, ops)| ==> !StepsOf(node, ops)[k].SetNodeKindStep?
  {}

  // No inverse changes kinds but that of a kind change.
  lemma {:induction false} InverseChangesNoKind(ctx: Ctx, step: TransactionStep)
    requires ApplyStep(ctx, step).Ok? && !step.SetNodeKindStep?
    ensures forall k :: 0 <= k < |ApplyStep(ctx, step).value.inverse| ==>
      !ApplyStep(ctx, step).value.inverse[k].SetNodeKindStep?
  {
    hide ParentOf, AtomParentOf, SplitAt, Joined, PositionOf, TextReplaced, EditInline, InheritedMarks, Inherited;
    hide SpansText;
    hide StepsOf, SpanOps, StripOps, MarksChanged, SpansOf, Rewrite, RewriteContent, Subtree, PayloadsOf, SortedIds;
    hide Chars, CaretOf;
    hide Allocate, Attach, GapCheck, GrowTail, CheckRestored, PutNodes, AtomDetached, JoinGap, CountAt, OffsetCheck;
    hide WithoutId, InsertId;
    forall node, ops
      ensures forall k :: 0 <= k < |StepsOf(node, ops)| ==> !StepsOf(node, ops)[k].SetNodeKindStep?
    {
      StepsOfKinds(node, ops);
    }
  }

  // Undoing a kind change leaves a kind its parent allows: the change checked it.
  lemma {:induction false} KindChangeBack(ctx: Ctx, node: NodeId, kind: NodeKind, nextId: nat)
    requires CtxOk(ctx) && ApplySetNodeKind(ctx, node, kind).Ok? && CtxOk(ApplySetNodeKind(ctx, node, kind).value.ctx)
    ensures ReversibleRun(ApplySetNodeKind(ctx, node, kind).value.ctx.(nextId := nextId),
        ApplySetNodeKind(ctx, node, kind).value.inverse)
  {
    hide IsTree, Validate, ParentOf, NodeOk, ApplyStep, AllowsChild;
    KindParentStays(ctx, node, kind);
    var applied := ApplySetNodeKind(ctx, node, kind).value;
    assert applied.inverse[1..] == [];
  }

  lemma {:induction false} StepRedo(ctx: Ctx, step: TransactionStep, nextId: nat)
    requires CtxOk(ctx) && WellTyped(step) && ApplyStep(ctx, step).Ok? && CtxOk(ApplyStep(ctx, step).value.ctx)
    requires Reversible(ctx, step) && ApplyStep(ctx, step).value.ctx.nextId <= nextId < U64_LIMIT
    ensures var applied := ApplyStep(ctx, step).value; var from := applied.ctx.(nextId := nextId);
      TreeRun(from, applied.inverse) && ReversibleRun(from, applied.inverse)
  {
    hide CtxOk, WellTyped, ApplyStep, SelfContained, ApplySetNodeKind, KindWasAllowed, TreeRun, ReversibleRun, Run;
    var applied := ApplyStep(ctx, step).value;
    var from := applied.ctx.(nextId := nextId);
    UndoStep(ctx, step);
    assert UndoneFrom(ctx, from, applied.inverse);
    InverseIsSound(ctx, step);
    HigherIdsOk(applied.ctx, nextId);
    RunKeepsTree(from, applied.inverse);
    if step.SetNodeKindStep? {
      KindStepIs(ctx, step);
      KindChangeBack(ctx, step.node, step.kind, nextId);
    } else {
      InverseChangesNoKind(ctx, step);
      WithoutKindsReversible(from, applied.inverse);
    }
  }

  lemma KindStepIs(ctx: Ctx, step: TransactionStep)
    requires step.SetNodeKindStep?
    ensures ApplyStep(ctx, step) == ApplySetNodeKind(ctx, step.node, step.kind)
  {}

  lemma HigherIdsOk(ctx: Ctx, nextId: nat)
    requires CtxOk(ctx) && ctx.nextId <= nextId < U64_LIMIT
    ensures CtxOk(ctx.(nextId := nextId))
  {
    hide IsTree;
  }

  // The inverse of a reversible run, from any later allocator, is again a
  // reversible run over trees: redo restores, and so does undoing the redo.
  lemma {:induction false} RedoRun(ctx: Ctx, steps: seq<TransactionStep>, nextId: nat)
    requires TreeRun(ctx, steps) && ReversibleRun(ctx, steps)
    requires Run(ctx, steps).Ok? && Run(ctx, steps).value.ctx.nextId <= nextId < U64_LIMIT
    ensures var applied := Run(ctx, steps).value; var from := applied.ctx.(nextId := nextId);
      TreeRun(from, applied.inverse) && ReversibleRun(from, applied.inverse)
    decreases |steps|
  {
    hide CtxOk, WellTyped, ApplyStep, Reversible, UndoneFrom;
    if steps == [] {
      HigherIdsOk(ctx, nextId);
    } else {
      var first := ApplyStep(ctx, steps[0]).value;
      var later := steps[1..];
      TreeRunStarts(first.ctx, later);
      UndoesRun(first.ctx, later);
      RunsKeepIds(first.ctx, later);
      RedoRun(first.ctx, later, nextId);
      RunUnfolds(ctx, steps);
      var rest := Run(first.ctx, later).value;
      var from := rest.ctx.(nextId := nextId);
      assert UndoneFrom(first.ctx, from, rest.inverse);
      RestoredByRun(first.ctx, from, rest.inverse);
      StepRedo(ctx, steps[0], nextId);
      TreeRunConcat(from, rest.inverse, first.inverse);
    }
  }

  lemma RestoredByRun(before: Ctx, from: Ctx, inverse: seq<TransactionStep>)
    requires UndoneFrom(before, from, inverse)
    ensures Run(from, inverse).Ok? && Run(from, inverse).value.ctx == before.(nextId := from.nextId)
  {
    hide Run;
  }

  // Apply, undo, redo: the redo gives the applied document back.
  lemma {:induction false} UndoThenRedo(ctx: Ctx, steps: seq<TransactionStep>)
    requires TreeRun(ctx, steps) && ReversibleRun(ctx, steps)
    ensures Run(ctx, steps).Ok?
    ensures var applied := Run(ctx, steps).value; var undone := Run(applied.ctx, applied.inverse);
      && undone.Ok? && undone.value.ctx == Ctx(ctx.root, ctx.store, applied.ctx.nextId)
      && Run(undone.value.ctx, undone.value.inverse).Ok?
      && Run(undone.value.ctx, undone.value.inverse).value.ctx == applied.ctx
  {
    hide CtxOk, ApplyStep, Run, ReversibleRun, TreeRun;
    UndoesRun(ctx, steps);
    var applied := Run(ctx, steps).value;
    NextIdBound(applied.ctx);
    var nextId := applied.ctx.nextId;
    assert applied.ctx.(nextId := nextId) == applied.ctx;
    assert UndoneFrom(ctx, applied.ctx, applied.inverse);
    RedoRun(ctx, steps, nextId);
    UndoesRun(applied.ctx, applied.inverse);
    var undone := Run(applied.ctx, applied.inverse).value;
    assert undone.ctx.(nextId := nextId) == undone.ctx;
    assert UndoneFrom(applied.ctx, undone.ctx, undone.inverse);
  }

  // ----- the kind change that cannot be taken back

  const EMPTY_DOCUMENT: Ctx := Ctx(0, map[0 := Node(0, Document, map[], Children([]))], 1)

  // A list item is stored below the document, which allows no list item, and
  // becomes a quote before the result is validated.
  const DETOUR: seq<TransactionStep> :=
    [InsertNodeStep(0, 0, ListItem, map[], Children([])), SetNodeKindStep(1, Quote)]

  const INSERTED: Store :=
    map[0 := Node(0, Document, map[], Children([1])), 1 := Node(1, ListItem, map[], Children([]))]

  const DETOUR_RESULT: Store :=
    map[0 := Node(0, Document, map[], Children([1])), 1 := Node(1, Quote, map[], Children([]))]

  lemma EmptyDocumentIsTree()
    ensures CtxOk(EMPTY_DOCUMENT)
  {
    var store := EMPTY_DOCUMENT.store;
    assert IsDepth(store, 0, map[0 := 0]);
  }

  lemma DetourInserts()
    ensures ApplyStep(EMPTY_DOCUMENT, DETOUR[0]).Ok?
      && ApplyStep(EMPTY_DOCUMENT, DETOUR[0]).value.ctx == Ctx(0, INSERTED, 2)
  {
    var step := DETOUR[0];
    assert ApplyStep(EMPTY_DOCUMENT, step) == ApplyInsertNode(EMPTY_DOCUMENT, 0, 0, ListItem, map[], Children([]));
    assert InsertId([], 0, 1) == [1];
  }

  lemma {:induction false} DetourChangesKind()
    requires CtxOk(Ctx(0, INSERTED, 2))
    ensures var r := ApplyStep(Ctx(0, INSERTED, 2), DETOUR[1]);
      && r.Ok? && r.value.ctx.root == 0
      && r.value.ctx.store == INSERTED[1 := Node(1, Quote, map[], Children([]))]
    ensures !KindWasAllowed(Ctx(0, INSERTED, 2), 1)
  {
    hide IsTree;
    assert ChildEdge(INSERTED, 0, 1);
    ParentIs(INSERTED, 0, 0, 1);
  }

  // Undo is not always accepted: every state of this run is a tree and its
  // result a well-formed document, yet its inverse is refused.
  lemma {:induction false} UndoCanBeRefused()
    ensures TreeRun(EMPTY_DOCUMENT, DETOUR) && Run(EMPTY_DOCUMENT, DETOUR).Ok?
    ensures var applied := Run(EMPTY_DOCUMENT, DETOUR).value;
      && applied.ctx.store == DETOUR_RESULT
      && Run(applied.ctx, applied.inverse).Err?
  {
    hide CtxOk, ApplyStep, IsTree, KindWasAllowed;
    EmptyDocumentIsTree();
    DetourInserts();
    DetourIsSound();
    StepKeepsTree(EMPTY_DOCUMENT, DETOUR[0]);
    DetourChangesKind();
    StepKeepsTree(Ctx(0, INSERTED, 2), DETOUR[1]);
    assert DETOUR[1..] == [DETOUR[1]] && DETOUR[1..][1..] == [];
    var last := ApplyStep(Ctx(0, INSERTED, 2), DETOUR[1]).value.ctx;
    assert TreeRun(last, []);
    assert TreeRun(Ctx(0, INSERTED, 2), DETOUR[1..]);
    assert !ReversibleRun(Ctx(0, INSERTED, 2), DETOUR[1..]);
    assert !ReversibleRun(EMPTY_DOCUMENT, DETOUR);
    UndoesRun(EMPTY_DOCUMENT, DETOUR);
    var applied := Run(EMPTY_DOCUMENT, DETOUR).value;
    NextIdBound(applied.ctx);
    assert applied.ctx.(nextId := applied.ctx.nextId) == applied.ctx;
  }

  lemma DetourIsSound()
    ensures WellTyped(DETOUR[0]) && SelfContained(DETOUR[0]) && WellTyped(DETOUR[1]) && SelfContained(DETOUR[1])
  {}
}
