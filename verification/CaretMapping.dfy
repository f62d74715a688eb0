// Position mapping follows the document: valid carets map to valid carets of
// the document each step, and each whole transaction, produces.
module CaretMapping {
  import opened Wrappers
  import opened Numbers
  import opened Text
  import opened Marks
  import opened Content
  import opened InlineEdit
  import opened Flat
  import opened Mapping
  import opened InlineLaws
  import opened Nodes
  import opened InputMarks
  import opened Steps
  import opened Inverse
  import opened InlineUndo
  import opened Structure
  import opened Tree
  import opened WorkingStore
  import opened Apply
  import opened Undo
  import opened UndoTree
  import opened UndoAtoms
  import opened UndoRun

  // A caret of a stored inline node.
  predicate ValidPoint(store: Store, point: InlinePoint) {
    && point.node in store && store[point.node].content.Inline?
    && ValidCaret(store[point.node].content.inline, CaretOf(point))
  }

  // The mapped position, if any, is a caret of the new store.
  predicate Lands(store: Store, mapped: MappedPosition<InlinePoint>) {
    mapped.Mapped? ==> ValidPoint(store, mapped.position)
  }

  ghost predicate Ordered(maps: seq<StepMap>) {
    forall m :: m in maps ==> OrderedRange(m)
  }

  lemma ThroughNone(point: InlinePoint, bias: MapBias)
    ensures MapInlinePointThrough([], point, bias) == Mapped(point)
  {}

  lemma ThroughOne(m: StepMap, point: InlinePoint, bias: MapBias)
    requires OrderedRange(m)
    ensures MapInlinePointThrough([m], point, bias) == MapInlinePoint(m, point, bias)
  {
    hide MapInlinePoint;
    assert [m][1..] == [];
  }

  // ----- text

  // On text without atoms in reach the text rules and the seam rules agree.
  lemma {:induction false} TextRulesAgree(c: InlineContent, node: NodeId, start: nat, end: nat, len: nat,
                                          point: InlinePoint, bias: MapBias)
    requires WfContent(c) && start <= end && point.node == node && ValidCaret(c, CaretOf(point))
    requires forall i :: 0 <= i < |c.atoms| ==> !(start <= c.atoms[i].offset <= end)
    ensures MapInlinePoint(TextReplacedMap(node, start, end, len), point, bias)
      == MapInlinePoint(InlineTextReplacedMap(node, start, end, len, 0), point, bias)
  {
    hide Chars, CharsOk, CanonicalRuns, Boundary, FirstAt, CountAt;
    if start <= point.offset <= end {
      NoneAt(c.atoms, point.offset);
    }
  }

  lemma {:induction false} NoneAt(atoms: seq<Placement>, x: nat)
    requires forall i :: 0 <= i < |atoms| ==> atoms[i].offset != x
    ensures CountAt(atoms, x) == 0
  {
    if atoms != [] {
      NoneAt(atoms[1..], x);
    }
  }

  lemma {:induction false} InlineReplaceLands(c: InlineContent, at: InlinePoint, end: nat, text: seq<byte>,
                                              marks: MarkSet, point: InlinePoint, bias: MapBias)
    requires WfContent(c) && ValidUtf8(text) && marks.Valid()
    requires InlineTextReplaced(c, at.offset, at.ordinal, end, text, marks).Ok?
    requires point.node == at.node && ValidCaret(c, CaretOf(point))
    ensures at.offset <= end
    ensures var r := InlineTextReplaced(c, at.offset, at.ordinal, end, text, marks).value;
      var q := MapInlinePoint(InlineTextReplacedMap(at.node, at.offset, end, |text|, at.ordinal), point, bias);
      && q.Mapped? && q.position.node == at.node && ValidCaret(r, CaretOf(q.position))
      && q.position.affinity == point.affinity
      && CaretIndex(r.atoms, CaretOf(q.position)) == SpliceIndex(
           CaretIndex(c.atoms, CaretOf(point)), CaretIndex(c.atoms, CaretOf(at)), end - at.offset, |text|, bias)
  {
    hide Chars, CharsOk, CanonicalRuns, ValidUtf8, FirstAt, CountAt, MovedAtoms, SpliceIndex, Boundary;
    hide InlineTextReplaced;
    EditAndMapCommute(c, at.offset, at.ordinal, end, text, marks, CaretOf(point), bias);
  }

  lemma {:induction false} TextReplaceLands(c: InlineContent, node: NodeId, start: nat, end: nat, text: seq<byte>,
                                            point: InlinePoint, bias: MapBias)
    requires WfContent(c) && ValidUtf8(text) && TextReplaced(c, start, end, text).Ok?
    requires point.node == node && ValidCaret(c, CaretOf(point))
    ensures start <= end
    ensures var r := TextReplaced(c, start, end, text).value;
      var q := MapInlinePoint(TextReplacedMap(node, start, end, |text|), point, bias);
      && q.Mapped? && q.position.node == node && ValidCaret(r, CaretOf(q.position))
      && q.position.affinity == point.affinity
      && CaretIndex(r.atoms, CaretOf(q.position)) == SpliceIndex(
           CaretIndex(c.atoms, CaretOf(point)), CaretIndex(c.atoms, Caret(start, 0)), end - start, |text|, bias)
  {
    hide Chars, CharsOk, CanonicalRuns, ValidUtf8, TextReplaced, InlineTextReplaced, ValidCaret, Inherited;
    hide MapInlinePoint, SpliceIndex, CaretIndex;
    TextIsInline(c, start, end, text);
    InheritedValid(Chars(c.runs), start);
    TextRulesAgree(c, node, start, end, |text|, point, bias);
    InlineReplaceLands(c, InlinePoint(node, start, 0, BeforeGlyph), end, text, Inherited(Chars(c.runs), start),
        point, bias);
  }

  lemma {:induction false} MarkChangeLands(c: InlineContent, start: nat, end: nat, change: MarkChange, p: Caret)
    requires WfContent(c) && MarksChanged(c, start, end, change).Ok? && ValidCaret(c, p)
    ensures ValidCaret(MarksChanged(c, start, end, change).value, p)
    ensures MarksChanged(c, start, end, change).value.atoms == c.atoms
  {
    hide Chars, CanonicalRuns, CharsOk, ChangeChars, CountAt, Boundary;
    ChangeKeepsText(Chars(c.runs), start, end, change);
  }

  // A text point maps as the caret before the atoms at its byte, except where a
  // replacement after those atoms starts there, under End.
  lemma TextPointIsFirstCaret(m: StepMap, point: TextPoint, bias: MapBias)
    requires OrderedRange(m)
    ensures var q := MapInlinePoint(m, InlinePoint(point.node, point.offset, 0, point.affinity), bias);
      MapTextPoint(m, point, bias)
      == (if q.Deleted? then Deleted
          else Mapped(TextPoint(q.position.node, q.position.offset, q.position.affinity)))
      <==>
      !(&& m.InlineTextReplacedMap? && point.node == m.node && point.offset == m.start
        && m.seam > 0 && m.len > 0 && bias == End)
  {}

  // ----- one step

  // Where a caret of a stored node goes with the items around it: the node and
  // the index, said without position maps.
  function Destination(ctx: Ctx, step: TransactionStep, point: InlinePoint, bias: MapBias): (NodeId, nat)
    requires ValidPoint(ctx.store, point)
  {
    var atoms := ctx.store[point.node].content.inline.atoms;
    var x := CaretIndex(atoms, CaretOf(point));
    match step
    case ReplaceTextStep(node, start, end, text) =>
      if point.node != node then (point.node, x)
      else (node, SpliceIndex(x, CaretIndex(atoms, Caret(start, 0)), Less(end, start), |text|, bias))
    case ReplaceInlineTextStep(at, end, text) =>
      if point.node != at.node then (point.node, x)
      else (at.node, SpliceIndex(x, CaretIndex(atoms, CaretOf(at)), Less(end, at.offset), |text|, bias))
    case InsertInlineAtomStep(at, _, _, _, _) => OneMore(point.node, at, atoms, x, bias)
    case RestoreInlineAtomStep(at, _) => OneMore(point.node, at, atoms, x, bias)
    case RemoveInlineAtomStep(atom) =>
      var j := PositionOf(Identities(atoms), atom);
      (point.node, if j.Some? && x > atoms[j.value].offset + j.value then x - 1 else x)
    case SplitNodeStep(node, offset) =>
      PastSplit(point.node, InlinePoint(node, offset, 0, BeforeGlyph), atoms, x, ctx.nextId, bias)
    case SplitInlineNodeStep(at) => PastSplit(point.node, at, atoms, x, ctx.nextId, bias)
    case RestoreJoinedNodeStep(at, payload) => PastSplit(point.node, at, atoms, x, payload.id, bias)
    case JoinNodesStep(first, second) =>
      if point.node != second || first !in ctx.store || !ctx.store[first].content.Inline? then (point.node, x)
      else
        var head := ctx.store[first].content.inline;
        (first, |Chars(head.runs)| + |head.atoms| + x)
    case _ => (point.node, x)
  }

  // One item more at the gap `at`.
  function OneMore(node: NodeId, at: InlinePoint, atoms: seq<Placement>, x: nat, bias: MapBias): (NodeId, nat) {
    (node, if node == at.node then SpliceIndex(x, CaretIndex(atoms, CaretOf(at)), 0, 1, bias) else x)
  }

  // What lies after the gap `at` moves to the new node, the gap itself under End.
  function PastSplit(node: NodeId, at: InlinePoint, atoms: seq<Placement>, x: nat, tail: NodeId, bias: MapBias)
      : (NodeId, nat) {
    var gap := CaretIndex(atoms, CaretOf(at));
    if node == at.node && (x > gap || (x == gap && bias == End)) then (tail, x - gap) else (node, x)
  }

  // The mapped position, if any, is that caret of the new document.
  ghost predicate Arrives(ctx: Ctx, step: TransactionStep, next: Store, point: InlinePoint, bias: MapBias,
                          mapped: MappedPosition<InlinePoint>) {
    && ValidPoint(ctx.store, point) && Lands(next, mapped)
    && (mapped.Mapped? ==>
          var q := mapped.position;
          && q.affinity == point.affinity
          && (q.node, CaretIndex(next[q.node].content.inline.atoms, CaretOf(q))) == Destination(ctx, step, point, bias))
  }

  // The step's mapping sends the caret to the caret its items moved to; it is
  // lost exactly when the step removed its node.
  ghost predicate Follows(ctx: Ctx, step: TransactionStep, applied: Applied, point: InlinePoint, bias: MapBias) {
    && Ordered(applied.maps)
    && var q := MapInlinePointThrough(applied.maps, point, bias);
      && Arrives(ctx, step, applied.ctx.store, point, bias, q)
      && (q.Deleted? <==> step.RemoveNodeStep? && point.node !in applied.ctx.store)
  }

  lemma OneMap(ctx: Ctx, step: TransactionStep, applied: Applied, m: StepMap, point: InlinePoint, bias: MapBias)
    requires applied.maps == [m] && OrderedRange(m)
    requires Arrives(ctx, step, applied.ctx.store, point, bias, MapInlinePoint(m, point, bias))
    requires MapInlinePoint(m, point, bias).Deleted? <==> step.RemoveNodeStep? && point.node !in applied.ctx.store
    ensures Follows(ctx, step, applied, point, bias)
  {
    hide Arrives, MapInlinePoint;
    ThroughOne(m, point, bias);
  }

  lemma NoMaps(ctx: Ctx, step: TransactionStep, applied: Applied, point: InlinePoint, bias: MapBias)
    requires applied.maps == [] && !step.RemoveNodeStep?
    requires Arrives(ctx, step, applied.ctx.store, point, bias, Mapped(point))
    ensures Follows(ctx, step, applied, point, bias)
  {
    hide Arrives;
    ThroughNone(point, bias);
  }

  // A caret of a node the step leaves alone stays where it is.
  lemma Untouched(ctx: Ctx, step: TransactionStep, next: Store, point: InlinePoint, bias: MapBias)
    requires ValidPoint(ctx.store, point) && point.node in next
    requires next[point.node].content == ctx.store[point.node].content
    requires Destination(ctx, step, point, bias)
      == (point.node, CaretIndex(ctx.store[point.node].content.inline.atoms, CaretOf(point)))
    ensures Arrives(ctx, step, next, point, bias, Mapped(point))
  {
    hide Destination, CaretIndex, ValidCaret;
  }

  lemma {:induction false} ReplaceTextFollows(ctx: Ctx, node: NodeId, start: nat, end: nat, text: seq<byte>,
                                              point: InlinePoint, bias: MapBias)
    requires CtxOk(ctx) && ValidUtf8(text) && ApplyReplaceText(ctx, node, start, end, text).Ok?
      && ValidPoint(ctx.store, point)
    ensures Follows(ctx, ReplaceTextStep(node, start, end, text), ApplyReplaceText(ctx, node, start, end, text).value,
        point, bias)
  {
    hide IsTree, WfContent, TextReplaced, Inherited, SpansOf, Chars, ValidUtf8, Validate, ReplaceTextInverse;
    hide ValidCaret, Follows, SpliceIndex, CaretIndex;
    NodeInTree(ctx.store, ctx.root, node);
    TreeKnowsAtoms(ctx.store, ctx.root, node);
    var c := ctx.store[node].content.inline;
    var step := ReplaceTextStep(node, start, end, text);
    var applied := ApplyReplaceText(ctx, node, start, end, text).value;
    TextIsInline(c, start, end, text);
    if point.node == node {
      TextReplaceLands(c, node, start, end, text, point, bias);
    } else {
      Untouched(ctx, step, applied.ctx.store, point, bias);
    }
    OneMap(ctx, step, applied, TextReplacedMap(node, start, end, |text|), point, bias);
  }

  lemma {:induction false} ReplaceInlineFollows(ctx: Ctx, at: InlinePoint, end: nat, text: seq<byte>,
                                                point: InlinePoint, bias: MapBias)
    requires CtxOk(ctx) && ValidUtf8(text) && ApplyReplaceInlineText(ctx, at, end, text).Ok?
      && ValidPoint(ctx.store, point)
    ensures Follows(ctx, ReplaceInlineTextStep(at, end, text), ApplyReplaceInlineText(ctx, at, end, text).value,
        point, bias)
  {
    hide IsTree, WfContent, InlineTextReplaced, InheritedMarks, SpansOf, Chars, ValidUtf8, Validate;
    hide ReplaceInlineTextInverse, ValidCaret, Follows;
    hide RangeCheck, AtomsKnown, SpliceIndex, CaretIndex;
    NodeInTree(ctx.store, ctx.root, at.node);
    TreeKnowsAtoms(ctx.store, ctx.root, at.node);
    var c := ctx.store[at.node].content.inline;
    var marks := InheritedMarks(ctx.store, c, CaretOf(at)).value;
    InheritedNeedsCaret(ctx.store, c, CaretOf(at));
    InheritedIsValid(ctx.store, c, CaretOf(at));
    var step := ReplaceInlineTextStep(at, end, text);
    var applied := ApplyReplaceInlineText(ctx, at, end, text).value;
    RangeIsOrdered(Chars(c.runs), at.offset, end);
    if point.node == at.node {
      InlineReplaceLands(c, at, end, text, marks, point, bias);
    } else {
      Untouched(ctx, step, applied.ctx.store, point, bias);
    }
    OneMap(ctx, step, applied,
        InlineTextReplacedMap(at.node, at.offset, end, |text|, at.ordinal), point, bias);
  }

  lemma RangeIsOrdered(cs: seq<Char>, start: nat, end: nat)
    requires RangeCheck(cs, start, end).Pass?
    ensures start <= end
  {}

  lemma {:induction false} MarkChangeFollows(ctx: Ctx, node: NodeId, start: nat, end: nat, change: MarkChange,
                                             step: TransactionStep, point: InlinePoint, bias: MapBias)
    requires CtxOk(ctx) && ApplyMarkChange(ctx, node, start, end, change).Ok? && ValidPoint(ctx.store, point)
      && (step.AddMarkStep? || step.RemoveMarkStep?)
    ensures Follows(ctx, step, ApplyMarkChange(ctx, node, start, end, change).value, point, bias)
  {
    hide IsTree, WfContent, MarksChanged, SpansOf, Chars, Validate, MarkChangeInverse, ValidCaret, Follows, CaretIndex;
    NodeInTree(ctx.store, ctx.root, node);
    TreeKnowsAtoms(ctx.store, ctx.root, node);
    var applied := ApplyMarkChange(ctx, node, start, end, change).value;
    if point.node == node {
      MarkChangeLands(ctx.store[node].content.inline, start, end, change, CaretOf(point));
    } else {
      Untouched(ctx, step, applied.ctx.store, point, bias);
    }
    NoMaps(ctx, step, applied, point, bias);
  }

  // Steps on payloads leave every caret where it is.
  lemma {:induction false} PayloadFollows(ctx: Ctx, step: TransactionStep, point: InlinePoint, bias: MapBias)
    requires CtxOk(ctx) && ApplyStep(ctx, step).Ok? && ValidPoint(ctx.store, point)
    requires step.SetInlineAtomMarksStep? || step.SetNodeAttrsStep? || step.SetNodeKindStep?
    ensures Follows(ctx, step, ApplyStep(ctx, step).value, point, bias)
  {
    hide IsTree, Validate, ValidCaret, Follows, ParentOf, AllowsChild, CaretIndex, Arrives;
    NodeInTree(ctx.store, ctx.root, point.node);
    var target := if step.SetInlineAtomMarksStep? then step.atom else step.node;
    NodeInTree(ctx.store, ctx.root, target);
    var applied := ApplyStep(ctx, step).value;
    Untouched(ctx, step, applied.ctx.store, point, bias);
    NoMaps(ctx, step, applied, point, bias);
  }

  lemma {:induction false} InsertNodeFollows(ctx: Ctx, parent: NodeId, index: nat, kind: NodeKind, attrs: NodeAttrs,
                                             content: NodeContent, point: InlinePoint, bias: MapBias)
    requires CtxOk(ctx) && ApplyInsertNode(ctx, parent, index, kind, attrs, content).Ok? && ValidPoint(ctx.store, point)
    ensures Follows(ctx, InsertNodeStep(parent, index, kind, attrs, content),
        ApplyInsertNode(ctx, parent, index, kind, attrs, content).value, point, bias)
  {
    hide IsTree, Validate, ValidCaret, Follows, InsertId, CaretIndex, Arrives;
    InsertedNodeFacts(ctx, parent, index, kind, attrs, content);
    var step := InsertNodeStep(parent, index, kind, attrs, content);
    var applied := ApplyInsertNode(ctx, parent, index, kind, attrs, content).value;
    Untouched(ctx, step, applied.ctx.store, point, bias);
    OneMap(ctx, step, applied, NodeInserted(parent, index, ctx.nextId),
        point, bias);
  }

  lemma {:induction false} RestoreFollows(ctx: Ctx, parent: NodeId, index: nat, root: NodeId, nodes: seq<Node>,
                                          point: InlinePoint, bias: MapBias)
    requires CtxOk(ctx) && ApplyRestoreSubtree(ctx, parent, index, root, nodes).Ok? && ValidPoint(ctx.store, point)
    ensures Follows(ctx, RestoreSubtreeStep(parent, index, root, nodes),
        ApplyRestoreSubtree(ctx, parent, index, root, nodes).value, point, bias)
  {
    hide IsTree, Validate, ValidCaret, Follows, InsertId, PutNodes, CheckRestored, DistinctIds, CaretIndex, Arrives;
    RestoredFacts(ctx, parent, index, root, nodes);
    PutNodesMeans(ctx.store, nodes);
    var step := RestoreSubtreeStep(parent, index, root, nodes);
    var applied := ApplyRestoreSubtree(ctx, parent, index, root, nodes).value;
    Untouched(ctx, step, applied.ctx.store, point, bias);
    OneMap(ctx, step, applied, NodeInserted(parent, index, root), point, bias);
  }

  lemma {:induction false} RemoveNodeFollows(ctx: Ctx, node: NodeId, point: InlinePoint, bias: MapBias)
    requires CtxOk(ctx) && ApplyRemoveNode(ctx, node).Ok? && ValidPoint(ctx.store, point)
    ensures Follows(ctx, RemoveNodeStep(node), ApplyRemoveNode(ctx, node).value, point, bias)
  {
    hide IsTree, Validate, ValidCaret, Follows, Subtree, WithoutId, PayloadsOf, PositionOf, ParentOf, CaretIndex;
    RemovedNodeFacts(ctx, node);
    var step := RemoveNodeStep(node);
    var applied := ApplyRemoveNode(ctx, node).value;
    if point.node !in Subtree(ctx.store, node) {
      Untouched(ctx, step, applied.ctx.store, point, bias);
    }
    OneMap(ctx, step, applied, applied.maps[0], point, bias);
  }

  lemma {:induction false} AtomAttachedFollows(ctx: Ctx, step: TransactionStep, at: InlinePoint, payload: Node,
                                               applied: Applied, point: InlinePoint, bias: MapBias)
    requires CtxOk(ctx) && payload.id !in ctx.store && !step.RemoveNodeStep?
    requires at.node in ctx.store && ctx.store[at.node].content.Inline?
    requires AtomAttached(ctx.store[at.node].content.inline, CaretOf(at), payload.id).Ok?
    requires applied.ctx.store == ctx.store[payload.id := payload][at.node := ctx.store[at.node].(content :=
      Inline(AtomAttached(ctx.store[at.node].content.inline, CaretOf(at), payload.id).value))]
    requires applied.maps == [InlineAtomInserted(at.node, at.offset, at.ordinal, payload.id)]
    requires ValidPoint(ctx.store, point)
    requires var atoms := ctx.store[point.node].content.inline.atoms;
      Destination(ctx, step, point, bias) == OneMore(point.node, at, atoms, CaretIndex(atoms, CaretOf(point)), bias)
    ensures Follows(ctx, step, applied, point, bias)
  {
    hide IsTree, Validate, ValidCaret, Follows, AtomAttached, WfContent, SpliceIndex, CaretIndex, Destination;
    TreeKnowsAtoms(ctx.store, ctx.root, at.node);
    if point.node == at.node {
      AtomInsertMapIsIndex(ctx.store[at.node].content.inline, at, payload.id, point, bias);
    } else {
      Untouched(ctx, step, applied.ctx.store, point, bias);
    }
    OneMap(ctx, step, applied, applied.maps[0], point, bias);
  }

  lemma {:induction false} InsertAtomFollows(ctx: Ctx, at: InlinePoint, atomKind: AtomKind, attrs: NodeAttrs,
                                             fallback: seq<byte>, marks: MarkSet, point: InlinePoint, bias: MapBias)
    requires CtxOk(ctx) && ApplyInsertInlineAtom(ctx, at, atomKind, attrs, fallback, marks).Ok?
      && ValidPoint(ctx.store, point)
    ensures Follows(ctx, InsertInlineAtomStep(at, atomKind, attrs, fallback, marks),
                    ApplyInsertInlineAtom(ctx, at, atomKind, attrs, fallback, marks).value, point, bias)
  {
    hide CtxOk, Validate, ValidPoint, Follows, AtomAttached, GapCheck, Attach, CaretIndex, OneMore;
    InsertedAtomFacts(ctx, at, atomKind, attrs, fallback, marks);
    AtomAttachedFollows(ctx, InsertInlineAtomStep(at, atomKind, attrs, fallback, marks), at,
                        Node(ctx.nextId, InlineAtom(atomKind), attrs, AtomPayload(fallback, marks)),
                        ApplyInsertInlineAtom(ctx, at, atomKind, attrs, fallback, marks).value, point, bias);
  }

  lemma {:induction false} RestoreAtomFollows(ctx: Ctx, at: InlinePoint, payload: Node, point: InlinePoint,
                                              bias: MapBias)
    requires CtxOk(ctx) && ApplyRestoreInlineAtom(ctx, at, payload).Ok? && ValidPoint(ctx.store, point)
    ensures Follows(ctx, RestoreInlineAtomStep(at, payload), ApplyRestoreInlineAtom(ctx, at, payload).value, point,
        bias)
  {
    hide CtxOk, Validate, ValidPoint, Follows, AtomAttached, GapCheck, Attach, CaretIndex, OneMore;
    RestoredAtomFacts(ctx, at, payload);
    AtomAttachedFollows(ctx, RestoreInlineAtomStep(at, payload), at, payload,
                        ApplyRestoreInlineAtom(ctx, at, payload).value, point, bias);
  }

  // The gap before an atom is the atom's index, and taking one item out there.
  lemma {:induction false} GapIndex(c: InlineContent, j: nat, x: nat, bias: MapBias)
    requires WfContent(c) && j < |c.atoms|
    ensures SpliceIndex(x, CaretIndex(c.atoms, GapBefore(c.atoms, j)), 1, 0, bias)
      == if x > c.atoms[j].offset + j then x - 1 else x
  {
    hide Chars, CharsOk, FirstAt, CountAt;
    GapIsCaret(c.atoms, j);
  }

  // In a tree an atom is placed in one node.
  lemma {:induction false} PlacedOnce(ctx: Ctx, n: NodeId, m: NodeId, atom: NodeId)
    requires CtxOk(ctx) && Edge(ctx.store, n, atom) && m != n && m in ctx.store && ctx.store[m].content.Inline?
    ensures PositionOf(Identities(ctx.store[m].content.inline.atoms), atom) == None
  {
    hide NodeOk, IsDepth, Distinct, Identities;
    assert atom in Identities(ctx.store[m].content.inline.atoms) ==> Edge(ctx.store, m, atom);
  }

  lemma {:induction false} RemoveAtomFollows(ctx: Ctx, atom: NodeId, point: InlinePoint, bias: MapBias)
    requires CtxOk(ctx) && ApplyRemoveInlineAtom(ctx, atom).Ok? && ValidPoint(ctx.store, point)
    ensures Follows(ctx, RemoveInlineAtomStep(atom), ApplyRemoveInlineAtom(ctx, atom).value, point, bias)
  {
    hide IsTree, Validate, ValidCaret, Follows, AtomDetached, WfContent, SpliceIndex, CaretIndex, AtomParentOf;
    hide PositionOf, Identities, GapBefore;
    hide ApplyRemoveInlineAtom;
    RemovedAtomFacts(ctx, atom);
    var n := AtomParentOf(ctx.store, atom).value;
    var c := ctx.store[n].content.inline;
    var j := PositionOf(Identities(c.atoms), atom).value;
    var step := RemoveInlineAtomStep(atom);
    var applied := ApplyRemoveInlineAtom(ctx, atom).value;
    if point.node == n {
      AtomRemoveMapIsIndex(c, j, n, point, bias);
      GapIndex(c, j, CaretIndex(c.atoms, CaretOf(point)), bias);
    } else {
      PlacedOnce(ctx, n, point.node, atom);
      Untouched(ctx, step, applied.ctx.store, point, bias);
    }
    OneMap(ctx, step, applied, applied.maps[0], point, bias);
  }

  // ----- splits and joins

  // A text-only split maps carets as the mixed one.
  lemma {:induction false} SplitMapsAgree(c: InlineContent, at: InlinePoint, inserted: NodeId, parent: NodeId,
                                          index: nat, point: InlinePoint, bias: MapBias)
    requires WfContent(c) && c.atoms == [] && at.ordinal == 0 && ValidCaret(c, CaretOf(point))
    ensures MapInlinePoint(NodeSplit(parent, index, at.node, at.offset, inserted), point, bias)
      == MapInlinePoint(InlineNodeSplit(parent, index, at, inserted), point, bias)
  {
    hide CharsOk, Chars, Boundary, CanonicalRuns;
  }

  lemma SplitMoves(store: Store, next: Store, parent: NodeId, at: InlinePoint, tail: Node, head: InlineContent,
                   index: nat, point: InlinePoint)
    requires parent in store && store[parent].content.Children? && index <= |store[parent].content.children|
    requires at.node in store && store[at.node].content.Inline? && tail.id !in store && ValidPoint(store, point)
    requires SplitStore(store, next, parent, at.node, tail, head, index)
    ensures at.node in next && next[at.node].content == Inline(head) && tail.id in next && next[tail.id] == tail
    ensures point.node != at.node ==> point.node in next && next[point.node] == store[point.node]
  {
    hide ValidCaret, InsertId;
  }

  lemma {:induction false} SplitFollows(ctx: Ctx, step: TransactionStep, at: InlinePoint, restored: Option<Node>,
                                        mixed: bool, point: InlinePoint, bias: MapBias)
    requires CtxOk(ctx) && SplitInline(ctx, at, restored, mixed).Ok? && ValidPoint(ctx.store, point)
      && !step.RemoveNodeStep?
    requires !mixed ==> at.node in ctx.store && ctx.store[at.node].content.Inline?
    requires !mixed ==> ctx.store[at.node].content.inline.atoms == []
    requires var atoms := ctx.store[point.node].content.inline.atoms;
      var tail := if restored.Some? then restored.value.id else ctx.nextId;
      Destination(ctx, step, point, bias)
      == PastSplit(point.node, at, atoms, CaretIndex(atoms, CaretOf(point)), tail, bias)
    ensures Follows(ctx, step, SplitInline(ctx, at, restored, mixed).value, point, bias)
  {
    hide IsTree, Validate, ValidCaret, Follows, SplitAt, WfContent, SplitStore, SplitInline, ParentOf, PositionOf;
    hide ChildEdge, CaretIndex, Destination;
    SplitFacts(ctx, at, restored, mixed);
    var applied := SplitInline(ctx, at, restored, mixed).value;
    var id := if restored.Some? then restored.value.id else ctx.nextId;
    var parent := ParentOf(ctx.store, at.node).value;
    ChildHasPosition(ctx.store, parent, at.node);
    var index := PositionOf(ctx.store[parent].content.children, at.node).value + 1;
    var c := ctx.store[at.node].content.inline;
    var halves := SplitAt(c, CaretOf(at)).value;
    SplitMoves(ctx.store, applied.ctx.store, parent, at, applied.ctx.store[id], halves.0, index, point);
    if !mixed {
      assert at.ordinal == 0 by { OrdinalWithoutAtoms(c, CaretOf(at)); }
    }
    if point.node == at.node {
      SplitMapIsIndex(c, at, id, parent, index, point, bias);
      if !mixed {
        SplitMapsAgree(c, at, id, parent, index, point, bias);
      }
    }
    OneMap(ctx, step, applied, applied.maps[0], point, bias);
  }

  lemma OrdinalWithoutAtoms(c: InlineContent, p: Caret)
    requires c.atoms == [] && SplitAt(c, p).Ok?
    ensures p.ordinal == 0
  {
    hide Chars, Group;
  }

  lemma {:induction false} JoinMapsAgree(a: InlineContent, b: InlineContent, parent: NodeId, index: nat,
                                         first: NodeId, second: NodeId, point: InlinePoint, bias: MapBias)
    requires WfContent(a) && WfContent(b) && a.atoms == [] && b.atoms == [] && point.node == second
    requires ValidCaret(b, CaretOf(point))
    ensures MapInlinePoint(NodeJoined(parent, index, first, second, JoinGap(a).offset, {second}), point, bias)
      == MapInlinePoint(JoinMap(parent, index, first, second, a), point, bias)
  {
    hide CharsOk, Chars, Boundary, CanonicalRuns;
  }

  lemma {:induction false} JoinFollows(ctx: Ctx, first: NodeId, second: NodeId, point: InlinePoint, bias: MapBias)
    requires CtxOk(ctx) && ApplyJoinNodes(ctx, first, second).Ok? && ValidPoint(ctx.store, point)
    ensures Follows(ctx, JoinNodesStep(first, second), ApplyJoinNodes(ctx, first, second).value, point, bias)
  {
    hide IsTree, Validate, ValidCaret, Follows, Joined, WfContent, ApplyJoinNodes, ParentOf, PositionOf, ChildEdge;
    hide CaretIndex, JoinGap;
    JoinFacts(ctx, first, second);
    JoinResult(ctx, first, second);
    var step := JoinNodesStep(first, second);
    var applied := ApplyJoinNodes(ctx, first, second).value;
    var parent := ParentOf(ctx.store, first).value;
    var index := PositionOf(ctx.store[parent].content.children, first).value + 1;
    var a, b := ctx.store[first].content.inline, ctx.store[second].content.inline;
    if point.node == first || point.node == second {
      JoinMapIsIndex(a, b, parent, index, first, second, point, bias);
      if a.atoms == [] && b.atoms == [] && point.node == second {
        JoinMapsAgree(a, b, parent, index, first, second, point, bias);
      }
    } else {
      Untouched(ctx, step, applied.ctx.store, point, bias);
    }
    OneMap(ctx, step, applied, applied.maps[0], point, bias);
  }

  lemma {:induction false} SplitNodeFollows(ctx: Ctx, node: NodeId, offset: nat, point: InlinePoint, bias: MapBias)
    requires CtxOk(ctx) && ApplySplitNode(ctx, node, offset).Ok? && ValidPoint(ctx.store, point)
    ensures Follows(ctx, SplitNodeStep(node, offset), ApplySplitNode(ctx, node, offset).value, point, bias)
  {
    hide CtxOk, SplitInline, OffsetCheck, ValidPoint, Follows, PastSplit, CaretIndex;
    SplitFollows(ctx, SplitNodeStep(node, offset), InlinePoint(node, offset, 0, BeforeGlyph), None, false, point, bias);
  }

  lemma {:induction false} RestoreJoinedFollows(ctx: Ctx, at: InlinePoint, payload: Node, point: InlinePoint,
                                                bias: MapBias)
    requires CtxOk(ctx) && ApplyRestoreJoinedNode(ctx, at, payload).Ok? && ValidPoint(ctx.store, point)
    ensures Follows(ctx, RestoreJoinedNodeStep(at, payload), ApplyRestoreJoinedNode(ctx, at, payload).value, point,
        bias)
  {
    hide CtxOk, SplitInline, ValidPoint, Follows, PastSplit, CaretIndex;
    SplitFollows(ctx, RestoreJoinedNodeStep(at, payload), at, Some(payload),
        ctx.store[at.node].content.inline.atoms != [], point, bias);
  }

  // Every step's mapping follows its edit.
  lemma {:induction false} StepFollows(ctx: Ctx, step: TransactionStep, point: InlinePoint, bias: MapBias)
    requires CtxOk(ctx) && WellTyped(step) && ApplyStep(ctx, step).Ok? && ValidPoint(ctx.store, point)
    ensures Follows(ctx, step, ApplyStep(ctx, step).value, point, bias)
  {
    if step.SetInlineAtomMarksStep? || step.SetNodeAttrsStep? || step.SetNodeKindStep? {
      hide CtxOk, WellTyped, ApplyStep, ValidPoint, Follows;
      PayloadFollows(ctx, step, point, bias);
    } else {
      OtherStepFollows(ctx, step, point, bias);
    }
  }

  lemma {:induction false} OtherStepFollows(ctx: Ctx, step: TransactionStep, point: InlinePoint, bias: MapBias)
    requires CtxOk(ctx) && WellTyped(step) && ApplyStep(ctx, step).Ok? && ValidPoint(ctx.store, point)
    requires !step.SetInlineAtomMarksStep? && !step.SetNodeAttrsStep? && !step.SetNodeKindStep?
    ensures Follows(ctx, step, ApplyStep(ctx, step).value, point, bias)
  {
    hide CtxOk, ContentOk, NodeOk, ValidUtf8, ValidPoint, Follows;
    hide ApplyReplaceText, ApplyReplaceInlineText, ApplyMarkChange, ApplyInsertInlineAtom;
    hide ApplyRemoveInlineAtom, ApplySetInlineAtomMarks, ApplyRestoreInlineAtom, ApplyInsertNode, ApplyRestoreSubtree;
    hide ApplyRemoveNode, ApplySetNodeAttrs, ApplySetNodeKind, ApplySplitNode, SplitInline, ApplyRestoreJoinedNode;
    hide ApplyJoinNodes;
    match step {
      case ReplaceTextStep(node, start, end, text) => ReplaceTextFollows(ctx, node, start, end, text, point, bias);
      case ReplaceInlineTextStep(at, end, text) => ReplaceInlineFollows(ctx, at, end, text, point, bias);
      case InsertInlineAtomStep(at, kind, attrs, fallback, marks) =>
        InsertAtomFollows(ctx, at, kind, attrs, fallback, marks, point, bias);
      case RemoveInlineAtomStep(atom) => RemoveAtomFollows(ctx, atom, point, bias);
      case RestoreInlineAtomStep(at, payload) => RestoreAtomFollows(ctx, at, payload, point, bias);
      case InsertNodeStep(parent, index, kind, attrs, content) =>
        InsertNodeFollows(ctx, parent, index, kind, attrs, content, point, bias);
      case RestoreSubtreeStep(parent, index, root, nodes) => RestoreFollows(ctx, parent, index, root, nodes, point,
          bias);
      case RemoveNodeStep(node) => RemoveNodeFollows(ctx, node, point, bias);
      case AddMarkStep(node, start, end, mark) => MarkChangeFollows(ctx, node, start, end, Add(mark), step, point,
          bias);
      case RemoveMarkStep(node, start, end, kind) => MarkChangeFollows(ctx, node, start, end, Remove(kind), step,
          point, bias);
      case SplitNodeStep(node, offset) => SplitNodeFollows(ctx, node, offset, point, bias);
      case SplitInlineNodeStep(at) => SplitFollows(ctx, step, at, None, true, point, bias);
      case RestoreJoinedNodeStep(at, payload) => RestoreJoinedFollows(ctx, at, payload, point, bias);
      case JoinNodesStep(first, second) => JoinFollows(ctx, first, second, point, bias);
    }
  }

  // ----- whole transactions

  lemma {:induction false} ThroughConcat(a: seq<StepMap>, b: seq<StepMap>, point: InlinePoint, bias: MapBias)
    requires Ordered(a) && Ordered(b)
    ensures Ordered(a + b)
    ensures var q := MapInlinePointThrough(a, point, bias);
      MapInlinePointThrough(a + b, point, bias) ==
        (if q.Deleted? then Deleted else MapInlinePointThrough(b, q.position, bias))
    decreases |a|
  {
    hide MapInlinePoint, OrderedRange;
    if a == [] {
      assert a + b == b;
    } else {
      assert (a + b)[1..] == a[1..] + b && (a + b)[0] == a[0];
      assert a[0] in a;
      if MapInlinePoint(a[0], point, bias).Mapped? {
        ThroughConcat(a[1..], b, MapInlinePoint(a[0], point, bias).position, bias);
      } else {
        forall m | m in a + b
          ensures OrderedRange(m)
        {
          assert m in a || m in b;
        }
      }
    }
  }

  // Some step removes the node the caret has moved to by then.
  ghost predicate RemovedIn(ctx: Ctx, steps: seq<TransactionStep>, point: InlinePoint, bias: MapBias)
    decreases |steps|
  {
    steps != [] && ApplyStep(ctx, steps[0]).Ok?
    && var first := ApplyStep(ctx, steps[0]).value;
      || (steps[0].RemoveNodeStep? && point.node !in first.ctx.store)
      || (Ordered(first.maps) && MapInlinePointThrough(first.maps, point, bias).Mapped?
          && RemovedIn(first.ctx, steps[1..], MapInlinePointThrough(first.maps, point, bias).position, bias))
  }

  // Over any run on trees, a valid caret maps to a valid caret of the result, or
  // is lost exactly because a step removed its node.
  lemma {:induction false} RunFollows(ctx: Ctx, steps: seq<TransactionStep>, point: InlinePoint, bias: MapBias)
    requires TreeRun(ctx, steps) && ValidPoint(ctx.store, point)
    ensures Run(ctx, steps).Ok? && Ordered(Run(ctx, steps).value.maps)
    ensures var q := MapInlinePointThrough(Run(ctx, steps).value.maps, point, bias);
      Lands(Run(ctx, steps).value.ctx.store, q) && (q.Deleted? <==> RemovedIn(ctx, steps, point, bias))
    decreases |steps|
  {
    hide CtxOk, WellTyped, ApplyStep, ValidPoint, MapInlinePoint;
    RunsKeepIds(ctx, steps);
    if steps == [] {
      ThroughNone(point, bias);
    } else {
      var first := ApplyStep(ctx, steps[0]).value;
      StepFollows(ctx, steps[0], point, bias);
      RunUnfolds(ctx, steps);
      RunsKeepIds(first.ctx, steps[1..]);
      var rest := Run(first.ctx, steps[1..]).value;
      var q := MapInlinePointThrough(first.maps, point, bias);
      OrderedRun(first.ctx, steps[1..]);
      ThroughConcat(first.maps, rest.maps, point, bias);
      if q.Mapped? {
        RunFollows(first.ctx, steps[1..], q.position, bias);
      }
    }
  }

  // The recorded maps have ordered ranges, whatever caret is mapped.
  lemma {:induction false} OrderedRun(ctx: Ctx, steps: seq<TransactionStep>)
    requires TreeRun(ctx, steps)
    ensures Run(ctx, steps).Ok? && Ordered(Run(ctx, steps).value.maps)
    decreases |steps|
  {
    hide CtxOk, WellTyped, ApplyStep, OrderedRange;
    RunsKeepIds(ctx, steps);
    if steps != [] {
      RunUnfolds(ctx, steps);
      var first := ApplyStep(ctx, steps[0]).value;
      OrderedStep(ctx, steps[0]);
      OrderedRun(first.ctx, steps[1..]);
      var rest := Run(first.ctx, steps[1..]).value;
      forall m | m in first.maps + rest.maps
        ensures OrderedRange(m)
      {
        assert m in first.maps || m in rest.maps;
      }
    }
  }

  lemma {:induction false} OrderedStep(ctx: Ctx, step: TransactionStep)
    requires ApplyStep(ctx, step).Ok?
    ensures Ordered(ApplyStep(ctx, step).value.maps)
  {
    hide ParentOf, AtomParentOf, SplitAt, Joined, PositionOf, InlineTextReplaced, InheritedMarks, Inherited, SpansText;
    hide StepsOf, SpanOps, StripOps, MarksChanged, SpansOf, Rewrite, RewriteContent, Subtree, PayloadsOf, SortedIds;
    hide Chars, CaretOf;
    hide Allocate, Attach, GapCheck, GrowTail, CheckRestored, PutNodes, AtomDetached, JoinGap, CountAt, OffsetCheck;
    hide WithoutId, InsertId;
    hide TextReplaced;
    if step.ReplaceTextStep? {
      TextIsInline(ctx.store[step.node].content.inline, step.start, step.end, step.text);
    }
  }
}
