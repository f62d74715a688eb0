// Undo: running the inverse of an applied step restores the store exactly.
module Undo {
  import opened Wrappers
  import opened Text
  import opened Marks
  import opened Content
  import opened InlineEdit
  import opened Flat
  import opened InlineLaws
  import opened Nodes
  import opened InputMarks
  import opened Mapping
  import opened Steps
  import opened Inverse
  import opened InlineUndo
  import opened Tree
  import opened Apply

  // What Rust's types guarantee about a step: text is UTF-8, mark sets are
  // canonical, contents and payloads are constructed values.
  ghost predicate WellTyped(step: TransactionStep) {
    match step
    case ReplaceTextStep(_, _, _, text) => ValidUtf8(text)
    case ReplaceInlineTextStep(_, _, text) => ValidUtf8(text)
    case InsertInlineAtomStep(_, _, _, _, marks) => marks.Valid()
    case SetInlineAtomMarksStep(_, marks) => marks.Valid()
    case RestoreInlineAtomStep(_, payload) => NodeOk(payload)
    case InsertNodeStep(_, _, _, _, content) => ContentOk(content)
    case RestoreSubtreeStep(_, _, _, nodes) => forall i :: 0 <= i < |nodes| ==> NodeOk(nodes[i])
    case RestoreJoinedNodeStep(_, payload) => NodeOk(payload)
    case _ => true
  }

  ghost predicate ContentOk(content: NodeContent) {
    && (content.Inline? ==> WfContent(content.inline))
    && (content.AtomPayload? ==> content.marks.Valid())
  }

  // Running `inverse` from the state after a step gives the state before it,
  // whatever identities were consumed since.
  ghost predicate Undoes(before: Ctx, after: Ctx, inverse: seq<TransactionStep>) {
    forall nextId :: after.nextId <= nextId < U64_LIMIT ==>
      UndoneFrom(before, after.(nextId := nextId), inverse)
  }

  ghost predicate UndoneFrom(before: Ctx, from: Ctx, inverse: seq<TransactionStep>) {
    var r := Run(from, inverse);
    r.Ok? && r.value.ctx == Ctx(before.root, before.store, from.nextId)
  }

  lemma {:induction false} RunOne(ctx: Ctx, step: TransactionStep)
    ensures ApplyStep(ctx, step).Ok? ==>
      Run(ctx, [step]).Ok? && Run(ctx, [step]).value.ctx == ApplyStep(ctx, step).value.ctx
    ensures ApplyStep(ctx, step).Err? ==> Run(ctx, [step]).Err?
  {
    hide ApplyStep;
    assert [step][1..] == [];
  }

  // ----- text and mark steps

  predicate EditsNode(step: TransactionStep, node: NodeId) {
    match step
    case ReplaceTextStep(n, _, _, _) => n == node
    case ReplaceInlineTextStep(at, _, _) => at.node == node
    case AddMarkStep(n, _, _, _) => n == node
    case RemoveMarkStep(n, _, _, _) => n == node
    case _ => false
  }

  lemma ValidateNewInline(node: Node, c: InlineContent)
    requires Validate(node).Pass? && node.content.Inline?
    ensures Validate(node.(content := Inline(c))).Pass?
  {}

  // Editing an inline node changes no atom's contribution.
  lemma SameAtomMarks(store: Store, n: NodeId, c: InlineContent, id: NodeId)
    requires n in store && store[n].content.Inline?
    ensures AtomMarks(store[n := store[n].(content := Inline(c))], id) == AtomMarks(store, id)
  {}

  lemma {:induction false} SameLeft(store: Store, n: NodeId, c: InlineContent, atoms: seq<Placement>)
    requires n in store && store[n].content.Inline?
    ensures LeftContribution(store[n := store[n].(content := Inline(c))], atoms) == LeftContribution(store, atoms)
  {
    hide AtomMarks;
    if atoms != [] {
      SameLeft(store, n, c, atoms[..|atoms| - 1]);
      SameAtomMarks(store, n, c, atoms[|atoms| - 1].atom);
    }
  }

  lemma {:induction false} SameRight(store: Store, n: NodeId, c: InlineContent, atoms: seq<Placement>)
    requires n in store && store[n].content.Inline?
    ensures RightContribution(store[n := store[n].(content := Inline(c))], atoms) == RightContribution(store, atoms)
  {
    hide AtomMarks;
    if atoms != [] {
      SameRight(store, n, c, atoms[1..]);
      SameAtomMarks(store, n, c, atoms[0].atom);
    }
  }

  lemma {:induction false} SameInherited(store: Store, n: NodeId, c: InlineContent, edited: InlineContent, p: Caret)
    requires n in store && store[n].content.Inline?
    ensures InheritedMarks(store[n := store[n].(content := Inline(c))], edited, p) == InheritedMarks(store, edited, p)
  {
    hide LeftContribution, RightContribution, Chars, FirstAt, CountAt, Boundary, SeamLeft, SeamRight;
    SameLeft(store, n, c, SeamLeft(edited.atoms, p));
    SameRight(store, n, c, SeamRight(edited.atoms, p));
  }

  lemma {:induction false} SameEdit(store: Store, n: NodeId, c: InlineContent, edited: InlineContent,
                                    step: TransactionStep)
    requires n in store && store[n].content.Inline?
    ensures EditInline(store[n := store[n].(content := Inline(c))], edited, step) == EditInline(store, edited, step)
  {
    hide InheritedMarks, TextReplaced, MarksChanged, InlineTextReplaced, RangeCheck, Chars;
    if step.ReplaceInlineTextStep? {
      SameInherited(store, n, c, edited, CaretOf(step.at));
      var marks := InheritedMarks(store, edited, CaretOf(step.at));
      if marks.Ok? {
        var next := InlineTextReplaced(edited, step.at.offset, step.at.ordinal, step.end, step.text, marks.value);
        if next.Ok? {
          SameInherited(store, n, c, next.value, CaretOf(step.at));
        }
      }
    }
  }

  lemma {:induction false} SameRunInline(store: Store, n: NodeId, c: InlineContent, edited: InlineContent,
                                         steps: seq<TransactionStep>)
    requires n in store && store[n].content.Inline?
    ensures RunInline(store[n := store[n].(content := Inline(c))], edited, steps) == RunInline(store, edited, steps)
    decreases |steps|
  {
    hide EditInline;
    if steps != [] {
      SameEdit(store, n, c, edited, steps[0]);
      if EditInline(store, edited, steps[0]).Ok? {
        SameRunInline(store, n, c, EditInline(store, edited, steps[0]).value, steps[1..]);
      }
    }
  }

  // The edited store.
  function WithInline(store: Store, n: NodeId, c: InlineContent): Store
    requires n in store
  {
    store[n := store[n].(content := Inline(c))]
  }

  // One text or mark step on a stored node is the edit of its content.
  lemma {:induction false} StepIsEdit(ctx: Ctx, n: NodeId, c: InlineContent, step: TransactionStep)
    requires n in ctx.store && ctx.store[n].id == n && Validate(ctx.store[n]).Pass?
    requires ctx.store[n].content == Inline(c) && EditsNode(step, n)
    requires EditInline(ctx.store, c, step).Ok?
    ensures ApplyStep(ctx, step).Ok?
    ensures ApplyStep(ctx, step).value.ctx
      == ctx.(store := WithInline(ctx.store, n, EditInline(ctx.store, c, step).value))
  {
    hide TextReplaced, MarksChanged, InlineTextReplaced, InheritedMarks, Chars, RangeCheck, Validate, SpansOf;
    hide ReplaceTextInverse, ReplaceInlineTextInverse, MarkChangeInverse;
    ValidateNewInline(ctx.store[n], EditInline(ctx.store, c, step).value);
  }

  // A run of text and mark steps on one node.
  lemma {:induction false} RunOnNode(ctx: Ctx, n: NodeId, c: InlineContent, steps: seq<TransactionStep>)
    requires n in ctx.store && ctx.store[n].id == n && Validate(ctx.store[n]).Pass? && ctx.store[n].content == Inline(c)
    requires forall k :: 0 <= k < |steps| ==> EditsNode(steps[k], n)
    requires RunInline(ctx.store, c, steps).Ok?
    ensures Run(ctx, steps).Ok?
    ensures Run(ctx, steps).value.ctx == ctx.(store := WithInline(ctx.store, n, RunInline(ctx.store, c, steps).value))
    decreases |steps|
  {
    hide ApplyStep, EditInline, Validate;
    if steps == [] {
      assert WithInline(ctx.store, n, c) == ctx.store;
    } else {
      var next := EditInline(ctx.store, c, steps[0]).value;
      StepIsEdit(ctx, n, c, steps[0]);
      ValidateNewInline(ctx.store[n], next);
      SameRunInline(ctx.store, n, next, next, steps[1..]);
      var after := ctx.(store := WithInline(ctx.store, n, next));
      RunOnNode(after, n, next, steps[1..]);
    }
  }

  lemma {:induction false} TreeKnowsAtoms(store: Store, root: NodeId, n: NodeId)
    requires IsTree(store, root) && n in store && store[n].content.Inline?
    ensures WfContent(store[n].content.inline) && AtomsKnown(store, store[n].content.inline.atoms)
    ensures store[n].id == n && Validate(store[n]).Pass?
  {
    hide WfContent, IsDepth, Distinct;
    assert NodeOk(store[n]);
    var atoms := store[n].content.inline.atoms;
    forall i | 0 <= i < |atoms|
      ensures AtomMarks(store, atoms[i].atom).Ok? && ValidContribution(AtomMarks(store, atoms[i].atom))
    {
      var id := atoms[i].atom;
      assert References(store[n])[i] == id;
      assert Edge(store, n, id);
      assert NodeOk(store[id]);
    }
  }

  // Undo of a text or mark step.
  lemma {:induction false} UndoEdit(ctx: Ctx, n: NodeId, step: TransactionStep)
    requires CtxOk(ctx) && WellTyped(step) && EditsNode(step, n) && ApplyStep(ctx, step).Ok?
    ensures Undoes(ctx, ApplyStep(ctx, step).value.ctx, ApplyStep(ctx, step).value.inverse)
  {
    hide CtxOk, IsTree, WfContent, EditInline, RunInline, Run, ValidUtf8, Validate;
    var applied := ApplyStep(ctx, step).value;
    EditApplied(ctx, n, step);
    var c := ctx.store[n].content.inline;
    var next := EditInline(ctx.store, c, step).value;
    forall nextId | applied.ctx.nextId <= nextId < U64_LIMIT
      ensures UndoneFrom(ctx, applied.ctx.(nextId := nextId), applied.inverse)
    {
      var from := applied.ctx.(nextId := nextId);
      SameRunInline(ctx.store, n, next, next, applied.inverse);
      ValidateNewInline(ctx.store[n], next);
      RunOnNode(from, n, next, applied.inverse);
      assert WithInline(WithInline(ctx.store, n, next), n, c) == ctx.store;
    }
  }

  lemma {:induction false} EditApplied(ctx: Ctx, n: NodeId, step: TransactionStep)
    requires CtxOk(ctx) && WellTyped(step) && EditsNode(step, n) && ApplyStep(ctx, step).Ok?
    ensures n in ctx.store && ctx.store[n].id == n && Validate(ctx.store[n]).Pass? && ctx.store[n].content.Inline?
    ensures WfContent(ctx.store[n].content.inline)
    ensures EditInline(ctx.store, ctx.store[n].content.inline, step).Ok?
    ensures var next := EditInline(ctx.store, ctx.store[n].content.inline, step).value;
      var applied := ApplyStep(ctx, step).value;
      && WfContent(next)
      && applied.ctx == ctx.(store := WithInline(ctx.store, n, next))
      && RunInline(ctx.store, next, applied.inverse) == Ok(ctx.store[n].content.inline)
      && (forall k :: 0 <= k < |applied.inverse| ==> EditsNode(applied.inverse[k], n))
  {
    hide IsTree, TextReplaced, MarksChanged, InlineTextReplaced, InheritedMarks, Chars, RangeCheck, SpansOf;
    hide WfContent, Inherited;
    hide ReplaceTextInverse, ReplaceInlineTextInverse, MarkChangeInverse, RunInline, Validate, ValidUtf8;
    TreeKnowsAtoms(ctx.store, ctx.root, n);
    var c := ctx.store[n].content.inline;
    match step {
      case ReplaceTextStep(_, start, end, text) =>
        UndoTextReplace(ctx.store, c, n, start, end, text);
        var next := TextReplaced(c, start, end, text).value;
        TextInverseOnNode(n, start, |text|, Inherited(Chars(next.runs), start), SpansOf(c.runs, start, end));
      case ReplaceInlineTextStep(at, end, text) =>
        UndoInlineReplace(ctx.store, c, at, end, text);
        var next := EditInline(ctx.store, c, step).value;
        InlineInverseOnNode(at, |text|, InheritedMarks(ctx.store, next, CaretOf(at)).value,
            SpansOf(c.runs, at.offset, end));
      case AddMarkStep(_, start, end, mark) =>
        UndoMarkChange(ctx.store, c, n, start, end, Add(mark));
        MarkInverseOnNode(n, start, end, Add(mark), SpansOf(c.runs, start, end));
      case RemoveMarkStep(_, start, end, kind) =>
        UndoMarkChange(ctx.store, c, n, start, end, Remove(kind));
        MarkInverseOnNode(n, start, end, Remove(kind), SpansOf(c.runs, start, end));
    }
  }

  lemma TextInverseOnNode(n: NodeId, start: nat, len: nat, inherited: MarkSet, spans: seq<InlineSpan>)
    ensures forall k :: 0 <= k < |ReplaceTextInverse(n, start, len, inherited, spans)| ==>
      EditsNode(ReplaceTextInverse(n, start, len, inherited, spans)[k], n)
  {
    hide SpansText, StripOps, SpanOps;
  }

  lemma InlineInverseOnNode(at: InlinePoint, len: nat, restored: MarkSet, spans: seq<InlineSpan>)
    ensures forall k :: 0 <= k < |ReplaceInlineTextInverse(at, len, restored, spans)| ==>
      EditsNode(ReplaceInlineTextInverse(at, len, restored, spans)[k], at.node)
  {
    hide SpansText, StripOps, SpanOps;
  }

  lemma MarkInverseOnNode(n: NodeId, start: nat, end: nat, change: MarkChange, spans: seq<InlineSpan>)
    ensures forall k :: 0 <= k < |MarkChangeInverse(n, start, end, change, spans)| ==>
      EditsNode(MarkChangeInverse(n, start, end, change, spans)[k], n)
  {
    hide SpanOps;
  }
}
