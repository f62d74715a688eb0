// Carets mapped over a text step and then over its undo: which of them come
// back, exactly.
module ThereAndBack {
  import opened Wrappers
  import opened Text
  import opened Marks
  import opened Content
  import opened InlineEdit
  import opened Flat
  import opened Mapping
  import opened InlineLaws
  import opened Nodes
  import opened InputMarks
  import opened Steps
  import opened Inverse
  import opened InlineUndo
  import opened Tree
  import opened Apply
  import opened Undo
  import opened UndoRun
  import opened CaretMapping

  // ----- indices

  // The index survives the removal of items [at, at + removed) for `added` ones
  // and back: it is not swallowed by the replaced stretch.
  predicate IndexReturns(x: nat, at: nat, removed: nat, added: nat, bias: MapBias) {
    match bias
    case Start => x <= at || x > at + removed || (x == at + removed && added > 0)
    case End => x < at || x >= at + removed
  }

  lemma SpliceIndexReturns(x: nat, at: nat, removed: nat, added: nat, bias: MapBias)
    ensures SpliceIndex(SpliceIndex(x, at, removed, added, bias), at, added, removed, bias) == x
            <==> IndexReturns(x, at, removed, added, bias)
  {}

  // ----- carets

  // What a caller can check of a caret before the edit: which side of the
  // replaced stretch, read from the gap `(start, seam)`, it lies on.
  predicate CaretReturns(atoms: seq<Placement>, start: nat, seam: nat, end: nat, len: nat, p: Caret, bias: MapBias)
    requires start <= end
  {
    IndexReturns(CaretIndex(atoms, p), CaretIndex(atoms, Caret(start, seam)), end - start, len, bias)
  }

  lemma {:induction false} CaretThereAndBack(atoms: seq<Placement>, start: nat, seam: nat, end: nat, len: nat,
                                             p: Caret, bias: MapBias)
    requires Accepted(atoms, start, seam, end) && p.ordinal <= CountAt(atoms, p.offset)
    ensures MappedCaret(MappedCaret(p, start, end, len, seam, bias), start, start + len, end - start, seam, bias) == p
            <==> CaretReturns(atoms, start, seam, end, len, p, bias)
  {
    hide FirstAt, CountAt, MovedAtoms, SpliceIndex, MappedCaret, ClearFrom, SortedAtoms, IndexReturns;
    var cut := FirstAt(atoms, start) + seam;
    var moved := MovedAtoms(atoms, cut, start, end, len);
    var q := MappedCaret(p, start, end, len, seam, bias);
    var back := MappedCaret(q, start, start + len, end - start, seam, bias);
    MovedBack(atoms, start, seam, end, len);
    CaretCutsAccepted(atoms, start, seam, end);
    MovedFirstAt(atoms, cut, start, end, len, start);
    MapIsSpliceIndex(atoms, start, seam, end, len, p, bias);
    MapIsSpliceIndex(moved, start, seam, start + len, end - start, q, bias);
    SpliceIndexReturns(CaretIndex(atoms, p), CaretIndex(atoms, Caret(start, seam)), end - start, len, bias);
    CaretOrder(atoms, back, p);
  }

  // The plain reading: nothing at or before the edited gap moves for good when
  // read from the start, nothing at or after its end when read from the end.
  lemma {:induction false} OutsideReturns(atoms: seq<Placement>, start: nat, seam: nat, end: nat, len: nat, p: Caret,
                                          bias: MapBias)
    requires Accepted(atoms, start, seam, end) && p.ordinal <= CountAt(atoms, p.offset)
    requires bias == Start ==> p == Caret(start, seam) || CaretBefore(p, Caret(start, seam))
    requires bias == End ==> if start == end then !CaretBefore(p, Caret(start, seam)) else p.offset >= end
    ensures MappedCaret(MappedCaret(p, start, end, len, seam, bias), start, start + len, end - start, seam, bias) == p
  {
    hide FirstAt, CountAt, MappedCaret, ClearFrom, SortedAtoms, IndexReturns;
    CaretThereAndBack(atoms, start, seam, end, len, p, bias);
    CaretOrder(atoms, p, Caret(start, seam));
    if bias == End && start < end {
      EndIndex(atoms, start, seam, end, p);
    }
    ReturnsOutside(CaretIndex(atoms, p), CaretIndex(atoms, Caret(start, seam)), end - start, len, bias);
  }

  lemma ReturnsOutside(x: nat, at: nat, removed: nat, added: nat, bias: MapBias)
    requires if bias == Start then x <= at else x >= at + removed
    ensures IndexReturns(x, at, removed, added, bias)
  {}

  lemma {:induction false} EndIndex(atoms: seq<Placement>, start: nat, seam: nat, end: nat, p: Caret)
    requires Accepted(atoms, start, seam, end) && p.ordinal <= CountAt(atoms, p.offset) && start < end <= p.offset
    ensures CaretIndex(atoms, p) >= CaretIndex(atoms, Caret(start, seam)) + (end - start)
  {
    hide FirstAt, CountAt, ClearFrom, SortedAtoms;
    ClearEnds(atoms, start, seam, end);
    FirstAtMonotone(atoms, end, p.offset);
  }

  // ----- the two maps on content

  lemma MapIsCaretMap(node: NodeId, start: nat, end: nat, len: nat, seam: nat, point: InlinePoint, bias: MapBias)
    requires start <= end && point.node == node
    ensures var q := MappedCaret(CaretOf(point), start, end, len, seam, bias);
      MapInlinePoint(InlineTextReplacedMap(node, start, end, len, seam), point, bias)
      == Mapped(InlinePoint(node, q.offset, q.ordinal, point.affinity))
  {
    hide MapOverSeam;
  }

  lemma {:induction false} InlineMapsThereAndBack(c: InlineContent, node: NodeId, start: nat, seam: nat, end: nat,
                                                  text: seq<byte>, marks: MarkSet, point: InlinePoint, bias: MapBias)
    requires WfContent(c) && ValidUtf8(text) && marks.Valid()
    requires InlineTextReplaced(c, start, seam, end, text, marks).Ok?
    requires point.node == node && ValidCaret(c, CaretOf(point))
    ensures start <= end
    ensures var there := MapInlinePoint(InlineTextReplacedMap(node, start, end, |text|, seam), point, bias);
      && there.Mapped? && there.position.node == node
      && var again := MapInlinePoint(InlineTextReplacedMap(node, start, start + |text|, end - start, seam),
          there.position, bias);
         again == Mapped(point) <==> CaretReturns(c.atoms, start, seam, end, |text|, CaretOf(point), bias)
  {
    hide Chars, CharsOk, CanonicalRuns, ValidUtf8, FirstAt, CountAt, Boundary, InlineTextReplaced, MapInlinePoint;
    hide MappedCaret, CaretReturns, ClearFrom, SortedAtoms;
    AcceptedReplacement(c, start, seam, end, text, marks);
    ValidCaretCounts(c, CaretOf(point));
    CaretThereAndBack(c.atoms, start, seam, end, |text|, CaretOf(point), bias);
    MapIsCaretMap(node, start, end, |text|, seam, point, bias);
    var there := MapInlinePoint(InlineTextReplacedMap(node, start, end, |text|, seam), point, bias).position;
    MapIsCaretMap(node, start, start + |text|, end - start, seam, there, bias);
  }

  lemma ValidCaretCounts(c: InlineContent, p: Caret)
    requires ValidCaret(c, p)
    ensures p.ordinal <= CountAt(c.atoms, p.offset)
  {
    hide Chars, CountAt, Boundary;
  }

  // The text step's own rules bring the same carets back.
  lemma {:induction false} TextMapsThereAndBack(c: InlineContent, node: NodeId, start: nat, end: nat, text: seq<byte>,
                                                point: InlinePoint, bias: MapBias)
    requires WfContent(c) && ValidUtf8(text) && TextReplaced(c, start, end, text).Ok?
    requires point.node == node && ValidCaret(c, CaretOf(point))
    ensures start <= end
    ensures var there := MapInlinePoint(TextReplacedMap(node, start, end, |text|), point, bias);
      && there.Mapped? && there.position.node == node
      && var again := MapInlinePoint(TextReplacedMap(node, start, start + |text|, end - start), there.position, bias);
         again == Mapped(point) <==> CaretReturns(c.atoms, start, 0, end, |text|, CaretOf(point), bias)
  {
    hide Chars, CharsOk, CanonicalRuns, ValidUtf8, FirstAt, CountAt, Boundary, InlineTextReplaced, TextReplaced;
    hide MapInlinePoint, CaretReturns, ValidCaret, Inherited;
    var marks := Inherited(Chars(c.runs), start);
    InlineUndo.TextIsInline(c, start, end, text);
    InheritedValid(Chars(c.runs), start);
    InlineMapsThereAndBack(c, node, start, 0, end, text, marks, point, bias);
    TextRulesAgree(c, node, start, end, |text|, point, bias);
    TextReplaceLands(c, node, start, end, text, point, bias);
    StillUntouched(c, start, end, text, marks);
    SeamCaretStays(c, start, 0, end, text, marks);
    var next := TextReplaced(c, start, end, text).value;
    var there := MapInlinePoint(TextReplacedMap(node, start, end, |text|), point, bias).position;
    TextRulesAgree(next, node, start, start + |text|, end - start, there, bias);
  }

  // ----- a step and its undo

  // The edited node and stretch of a text step.
  function EditedNode(step: TransactionStep): NodeId
    requires step.ReplaceTextStep? || step.ReplaceInlineTextStep?
  {
    if step.ReplaceTextStep? then step.node else step.at.node
  }

  function EditGap(step: TransactionStep): Caret
    requires step.ReplaceTextStep? || step.ReplaceInlineTextStep?
  {
    if step.ReplaceTextStep? then Caret(step.start, 0) else CaretOf(step.at)
  }

  // The map of the step, or of its inverse when `len` replaces `removed` items.
  function EditMap(step: TransactionStep, removed: nat, len: nat): (m: StepMap)
    requires step.ReplaceTextStep? || step.ReplaceInlineTextStep?
    ensures OrderedRange(m)
  {
    var gap := EditGap(step);
    if step.ReplaceTextStep? then TextReplacedMap(step.node, gap.offset, gap.offset + removed, len)
    else InlineTextReplacedMap(step.at.node, gap.offset, gap.offset + removed, len, gap.ordinal)
  }

  // Mark steps of the inverse emit no maps.
  predicate IsMarkStep(step: TransactionStep) {
    step.AddMarkStep? || step.RemoveMarkStep?
  }

  lemma {:induction false} MarkStepsMapNothing(ctx: Ctx, steps: seq<TransactionStep>)
    requires forall i :: 0 <= i < |steps| ==> IsMarkStep(steps[i])
    requires Run(ctx, steps).Ok?
    ensures Run(ctx, steps).value.maps == []
    decreases |steps|
  {
    hide ApplyStep;
    if steps != [] {
      RunUnfolds(ctx, steps);
      MarkStepMapsNothing(ctx, steps[0]);
      MarkStepsMapNothing(ApplyStep(ctx, steps[0]).value.ctx, steps[1..]);
    }
  }

  lemma MarkStepMapsNothing(ctx: Ctx, step: TransactionStep)
    requires IsMarkStep(step) && ApplyStep(ctx, step).Ok?
    ensures ApplyStep(ctx, step).value.maps == []
  {
    hide InlineOf, MarksChanged, RewriteContent, SpansOf, MarkChangeInverse;
  }

  // An inverse starts with the replacement back and goes on with mark steps.
  ghost predicate StartsBack(step: TransactionStep, inverse: seq<TransactionStep>, removed: nat) {
    && (step.ReplaceTextStep? || step.ReplaceInlineTextStep?)
    && inverse != [] && (forall i :: 1 <= i < |inverse| ==> IsMarkStep(inverse[i]))
    && match step
       case ReplaceTextStep(node, start, end, text) =>
         && inverse[0].ReplaceTextStep? && inverse[0].node == node && inverse[0].start == start
         && inverse[0].end == start + |text| && |inverse[0].text| == removed
       case ReplaceInlineTextStep(at, end, text) =>
         && inverse[0].ReplaceInlineTextStep? && inverse[0].at == at
         && inverse[0].end == at.offset + |text| && |inverse[0].text| == removed
       case _ => false
  }

  lemma {:induction false} BackMap(ctx: Ctx, step: TransactionStep, inverse: seq<TransactionStep>, removed: nat)
    requires StartsBack(step, inverse, removed) && Run(ctx, inverse).Ok?
    ensures Run(ctx, inverse).value.maps == [EditMap(step, |step.text|, removed)]
  {
    hide ApplyStep, Run;
    RunUnfolds(ctx, inverse);
    FirstMap(ctx, inverse[0]);
    MarkStepsMapNothing(ApplyStep(ctx, inverse[0]).value.ctx, inverse[1..]);
  }

  lemma FirstMap(ctx: Ctx, step: TransactionStep)
    requires (step.ReplaceTextStep? || step.ReplaceInlineTextStep?) && ApplyStep(ctx, step).Ok?
    ensures var maps := ApplyStep(ctx, step).value.maps;
      maps == if step.ReplaceTextStep? then [TextReplacedMap(step.node, step.start, step.end, |step.text|)]
              else [InlineTextReplacedMap(step.at.node, step.at.offset, step.end, |step.text|, step.at.ordinal)]
  {
    hide InlineOf, TextReplaced, EditInline, RewriteContent, SpansOf, ReplaceTextInverse, ReplaceInlineTextInverse;
    hide InheritedMarks, Inherited, Chars;
  }

  lemma StepsOfMarks(node: NodeId, ops: seq<MarkOp>)
    ensures forall i :: 0 <= i < |StepsOf(node, ops)| ==> IsMarkStep(StepsOf(node, ops)[i])
  {}

  lemma {:induction false} RemovedLength(runs: seq<TextRun>, start: nat, end: nat)
    requires CanonicalRuns(runs) && CharsOk(Chars(runs)) && RangeCheck(Chars(runs), start, end).Pass?
    ensures start <= end && |SpansText(SpansOf(runs, start, end))| == end - start
    ensures SpansOf(runs, start, end) == [] ==> start == end
  {
    hide Chars, CanonicalRuns, CharsOk, SpansOf, SpansText, SpansTile;
    RangeInText(Chars(runs), start, end);
    SpansCover(runs, start, end);
    SpansTextIsBytes(Chars(runs), SpansOf(runs, start, end), start, end);
    BytesLength(Chars(runs)[start..end]);
    if SpansOf(runs, start, end) == [] {
      EmptyCover(Chars(runs), start, end);
    }
  }

  // The inverse of an applied text step undoes it and maps back over it.
  lemma {:induction false} InverseStartsBack(ctx: Ctx, step: TransactionStep)
    requires CtxOk(ctx) && WellTyped(step) && ApplyStep(ctx, step).Ok?
    requires step.ReplaceTextStep? || step.ReplaceInlineTextStep?
    ensures EditGap(step).offset <= EditEnd(step)
    ensures StartsBack(step, ApplyStep(ctx, step).value.inverse, EditEnd(step) - EditGap(step).offset)
  {
    hide CtxOk, WfContent, CharsOk, CanonicalRuns, Validate, EditInline, RunInline, SpansOf, SpansText, Chars;
    hide RangeCheck;
    hide RewriteContent, StripOps, SpanOps, StepsOf, InheritedMarks, Inherited;
    var n := EditedNode(step);
    EditApplied(ctx, n, step);
    var c := ctx.store[n].content.inline;
    EditInRange(ctx.store, c, step);
    TextOfContent(c);
    RemovedLength(c.runs, EditGap(step).offset, EditEnd(step));
    InverseShape(ctx, step, c);
  }

  function EditEnd(step: TransactionStep): nat
    requires step.ReplaceTextStep? || step.ReplaceInlineTextStep?
  {
    step.end
  }

  lemma TextOfContent(c: InlineContent)
    requires WfContent(c)
    ensures CanonicalRuns(c.runs) && CharsOk(Chars(c.runs))
  {
    hide Chars, CharsOk, CanonicalRuns;
  }

  lemma {:induction false} EditInRange(store: Store, c: InlineContent, step: TransactionStep)
    requires (step.ReplaceTextStep? || step.ReplaceInlineTextStep?) && EditInline(store, c, step).Ok?
    ensures RangeCheck(Chars(c.runs), EditGap(step).offset, EditEnd(step)).Pass?
  {
    hide Chars, RangeCheck, InheritedMarks, Inherited, ClearFrom, FirstAt, CountAt, MovedAtoms, SpliceChars, Group;
  }

  lemma {:induction false} InverseShape(ctx: Ctx, step: TransactionStep, c: InlineContent)
    requires (step.ReplaceTextStep? || step.ReplaceInlineTextStep?) && ApplyStep(ctx, step).Ok?
    requires EditedNode(step) in ctx.store && ctx.store[EditedNode(step)].content == Inline(c)
    requires EditGap(step).offset <= EditEnd(step)
    requires var spans := SpansOf(c.runs, EditGap(step).offset, EditEnd(step));
      && |SpansText(spans)| == EditEnd(step) - EditGap(step).offset
      && (spans == [] ==> EditGap(step).offset == EditEnd(step))
    ensures StartsBack(step, ApplyStep(ctx, step).value.inverse, EditEnd(step) - EditGap(step).offset)
  {
    hide TextReplaced, EditInline, SpansOf, SpansText, Chars, RewriteContent, StripOps, SpanOps, StepsOf;
    hide InheritedMarks;
    hide Inherited;
    var gap, end := EditGap(step), EditEnd(step);
    var spans := SpansOf(c.runs, gap.offset, end);
    match step {
      case ReplaceTextStep(node, start, _, text) =>
        var inherited := Inherited(Chars(TextReplaced(c, start, end, text).value.runs), start);
        StepsOfMarks(node, StripOps(inherited.marks, start, start + |SpansText(spans)|));
        StepsOfMarks(node, SpanOps(spans, None));
      case ReplaceInlineTextStep(at, _, text) =>
        var restored := InheritedMarks(ctx.store, EditInline(ctx.store, c, step).value, CaretOf(at)).value;
        StepsOfMarks(at.node, StripOps(restored.marks, at.offset, at.offset + |SpansText(spans)|));
        StepsOfMarks(at.node, SpanOps(spans, None));
    }
  }

  lemma {:induction false} EditMapsThereAndBack(ctx: Ctx, step: TransactionStep, point: InlinePoint, bias: MapBias)
    requires CtxOk(ctx) && WellTyped(step) && ApplyStep(ctx, step).Ok? && ValidPoint(ctx.store, point)
    requires (step.ReplaceTextStep? || step.ReplaceInlineTextStep?) && point.node == EditedNode(step)
    requires EditGap(step).offset <= EditEnd(step)
    ensures var removed, gap := EditEnd(step) - EditGap(step).offset, EditGap(step);
      var there := MapInlinePoint(EditMap(step, removed, |step.text|), point, bias);
      && there.Mapped?
      && var again := MapInlinePoint(EditMap(step, |step.text|, removed), there.position, bias);
         again == Mapped(point)
         <==> CaretReturns(ctx.store[point.node].content.inline.atoms, gap.offset, gap.ordinal, EditEnd(step),
             |step.text|,
                           CaretOf(point), bias)
  {
    hide CtxOk, WfContent, Validate, EditInline, RunInline, Chars, ValidUtf8, MapInlinePoint, CaretReturns, ValidCaret;
    hide InlineTextReplaced, TextReplaced, InheritedMarks, ApplyStep, EditMap, WithInline;
    var n := EditedNode(step);
    EditApplied(ctx, n, step);
    var c := ctx.store[n].content.inline;
    EditMeans(ctx.store, c, step);
    match step {
      case ReplaceTextStep(node, start, end, text) =>
        TextMapsThereAndBack(c, node, start, end, text, point, bias);
      case ReplaceInlineTextStep(at, end, text) =>
        var marks := InheritedMarks(ctx.store, c, CaretOf(at)).value;
        KnownAtoms(ctx, n);
        InheritedNeedsCaret(ctx.store, c, CaretOf(at));
        InheritedIsValid(ctx.store, c, CaretOf(at));
        InlineMapsThereAndBack(c, at.node, at.offset, at.ordinal, end, text, marks, point, bias);
    }
    EditMapIs(step, EditEnd(step) - EditGap(step).offset);
  }

  // What an accepted text step does to the content.
  lemma EditMeans(store: Store, c: InlineContent, step: TransactionStep)
    requires (step.ReplaceTextStep? || step.ReplaceInlineTextStep?) && EditInline(store, c, step).Ok?
    ensures step.ReplaceTextStep? ==> TextReplaced(c, step.start, step.end, step.text).Ok?
    ensures step.ReplaceInlineTextStep? ==> InheritedMarks(store, c, CaretOf(step.at)).Ok?
    ensures step.ReplaceInlineTextStep? ==>
      InlineTextReplaced(c, step.at.offset, step.at.ordinal, step.end, step.text,
                         InheritedMarks(store, c, CaretOf(step.at)).value).Ok?
  {
    hide TextReplaced, InlineTextReplaced, InheritedMarks, RangeCheck, Chars;
  }

  lemma EditMapIs(step: TransactionStep, removed: nat)
    requires (step.ReplaceTextStep? || step.ReplaceInlineTextStep?) && EditGap(step).offset + removed == EditEnd(step)
    ensures step.ReplaceTextStep? ==>
      && EditMap(step, removed, |step.text|) == TextReplacedMap(step.node, step.start, step.end, |step.text|)
      && EditMap(step, |step.text|, removed)
        == TextReplacedMap(step.node, step.start, step.start + |step.text|, removed)
    ensures step.ReplaceInlineTextStep? ==>
      && EditMap(step, removed, |step.text|)
         == InlineTextReplacedMap(step.at.node, step.at.offset, step.end, |step.text|, step.at.ordinal)
      && EditMap(step, |step.text|, removed)
         == InlineTextReplacedMap(step.at.node, step.at.offset, step.at.offset + |step.text|, removed, step.at.ordinal)
  {}

  lemma KnownAtoms(ctx: Ctx, n: NodeId)
    requires CtxOk(ctx) && n in ctx.store && ctx.store[n].content.Inline?
    ensures AtomsKnown(ctx.store, ctx.store[n].content.inline.atoms)
  {
    hide IsTree, AtomsKnown;
    TreeKnowsAtoms(ctx.store, ctx.root, n);
  }

  // Elsewhere neither map moves anything.
  lemma ElsewhereStays(step: TransactionStep, removed: nat, len: nat, point: InlinePoint, bias: MapBias)
    requires (step.ReplaceTextStep? || step.ReplaceInlineTextStep?) && point.node != EditedNode(step)
    ensures MapInlinePoint(EditMap(step, removed, len), point, bias) == Mapped(point)
  {}

  lemma {:induction false} TwoMaps(first: StepMap, second: StepMap, point: InlinePoint, bias: MapBias)
    requires OrderedRange(first) && OrderedRange(second) && MapInlinePoint(first, point, bias).Mapped?
    ensures Ordered([first] + [second])
    ensures MapInlinePointThrough([first] + [second], point, bias)
      == MapInlinePoint(second, MapInlinePoint(first, point, bias).position, bias)
  {
    hide MapInlinePoint;
    assert ([first] + [second])[1..] == [second];
    ThroughOne(second, MapInlinePoint(first, point, bias).position, bias);
  }

  // Over an accepted text step and its whole undo the document is restored, and
  // a caret comes back exactly when it lies outside the replaced stretch.
  lemma {:induction false} StepThereAndBack(ctx: Ctx, step: TransactionStep, point: InlinePoint, bias: MapBias)
    requires CtxOk(ctx) && WellTyped(step) && ApplyStep(ctx, step).Ok? && ValidPoint(ctx.store, point)
    requires step.ReplaceTextStep? || step.ReplaceInlineTextStep?
    ensures EditGap(step).offset <= EditEnd(step)
    ensures var applied := ApplyStep(ctx, step).value; var back := Run(applied.ctx, applied.inverse);
      && back.Ok? && back.value.ctx == ctx && Ordered(applied.maps + back.value.maps)
      && (MapInlinePointThrough(applied.maps + back.value.maps, point, bias) == Mapped(point) <==>
          point.node != EditedNode(step)
          || CaretReturns(ctx.store[point.node].content.inline.atoms, EditGap(step).offset, EditGap(step).ordinal,
                          EditEnd(step), |step.text|, CaretOf(point), bias))
  {
    hide CtxOk, WellTyped, ApplyStep, Run, StartsBack, MapInlinePoint, CaretReturns, ValidPoint, EditMap;
    var applied := ApplyStep(ctx, step).value;
    InverseStartsBack(ctx, step);
    UndoEdit(ctx, EditedNode(step), step);
    UndoneHere(ctx, step);
    var removed := EditEnd(step) - EditGap(step).offset;
    BackMap(applied.ctx, step, applied.inverse, removed);
    FirstMap(ctx, step);
    EditMapIs(step, removed);
    var first, second := EditMap(step, removed, |step.text|), EditMap(step, |step.text|, removed);
    if point.node == EditedNode(step) {
      EditMapsThereAndBack(ctx, step, point, bias);
    } else {
      ElsewhereStays(step, removed, |step.text|, point, bias);
      ElsewhereStays(step, |step.text|, removed, point, bias);
    }
    TwoMaps(first, second, point, bias);
  }

  lemma {:induction false} UndoneHere(ctx: Ctx, step: TransactionStep)
    requires step.ReplaceTextStep? || step.ReplaceInlineTextStep?
    requires CtxOk(ctx) && WellTyped(step) && ApplyStep(ctx, step).Ok?
    ensures var applied := ApplyStep(ctx, step).value;
      UndoneFrom(ctx, applied.ctx, applied.inverse) && applied.ctx.nextId == ctx.nextId
  {
    hide CtxOk, WellTyped, ApplyStep, UndoneFrom, EditInline, RunInline, WfContent, Validate, WithInline;
    NextIdBound(ctx);
    var applied := ApplyStep(ctx, step).value;
    UndoEdit(ctx, EditedNode(step), step);
    EditApplied(ctx, EditedNode(step), step);
    assert applied.ctx.(nextId := ctx.nextId) == applied.ctx;
  }
}
