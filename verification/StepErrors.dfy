// Which error a refused step reports: the first rule it breaks
// (crates/xiaomu-core/src/transaction/apply.rs, apply/atom.rs, apply/structure.rs,
// apply/subtree_restore.rs).
module StepErrors {
  import opened Wrappers
  import opened Text
  import opened Marks
  import opened Content
  import opened InlineEdit
  import opened Flat
  import opened InlineLaws
  import opened Nodes
  import opened InputMarks
  import opened Mapping
  import opened Steps
  import opened Inverse
  import opened InlineUndo
  import opened Structure
  import opened Tree
  import opened WorkingStore
  import opened Apply
  import opened Undo
  import opened UndoTree
  import opened StepEffects

  // ----- one rule broken

  // The error of a node that should hold text or children and does not.
  function Missing(ctx: Ctx, node: NodeId): Error {
    if node !in ctx.store then UnknownNode else InvalidTransaction
  }

  function OffsetError(cs: seq<Char>, offset: nat): Error {
    if offset > |cs| then TextOutOfBounds else InvalidTextBoundary
  }

  function RangeError(cs: seq<Char>, start: nat, end: nat): Error {
    if start > end then InvalidTextRange
    else if !Boundary(cs, start) then OffsetError(cs, start)
    else OffsetError(cs, end)
  }

  // The error of a gap that is none.
  function GapError(c: InlineContent, p: Caret): Error {
    if !Boundary(Chars(c.runs), p.offset) then OffsetError(Chars(c.runs), p.offset) else InvalidSelection
  }

  function NodeError(node: Node): Error {
    if Validate(node).Fail? then Validate(node).error else InvalidTransaction
  }

  lemma CheckedOffset(cs: seq<Char>, offset: nat)
    ensures OffsetCheck(cs, offset).Fail? ==> OffsetCheck(cs, offset).error == OffsetError(cs, offset)
    ensures OffsetCheck(cs, offset).Pass? <==> Boundary(cs, offset)
  {}

  lemma CheckedRange(cs: seq<Char>, start: nat, end: nat)
    ensures RangeCheck(cs, start, end).Fail? ==> RangeCheck(cs, start, end).error == RangeError(cs, start, end)
    ensures RangeCheck(cs, start, end).Pass? <==> start <= end && Boundary(cs, start) && Boundary(cs, end)
  {
    hide Boundary;
    CheckedOffset(cs, start);
    CheckedOffset(cs, end);
  }

  // ----- the steps

  function TextOf(ctx: Ctx, node: NodeId): InlineContent
    requires IsText(ctx, node)
  {
    ctx.store[node].content.inline
  }

  function TextError(ctx: Ctx, node: NodeId, start: nat, end: nat): Error {
    if !IsText(ctx, node) then Missing(ctx, node)
    else if !InRange(ctx, node, start, end) then RangeError(Chars(TextOf(ctx, node).runs), start, end)
    else InvalidTransaction
  }

  lemma {:induction false} TextRefusal(ctx: Ctx, node: NodeId, start: nat, end: nat, text: seq<byte>)
    requires CtxOk(ctx) && ValidUtf8(text) && ApplyReplaceText(ctx, node, start, end, text).Err?
    ensures ApplyReplaceText(ctx, node, start, end, text).error == TextError(ctx, node, start, end)
  {
    hide IsTree, Validate, Chars, Boundary, RangeCheck, ClearFrom, WfContent, NodeOk, Inherited, SpansOf, SpliceChars;
    hide ReplaceTextInverse, Group, MovedAtoms;
    if IsText(ctx, node) {
      NodeInTree(ctx.store, ctx.root, node);
      CheckedRange(Chars(TextOf(ctx, node).runs), start, end);
      var next := TextReplaced(TextOf(ctx, node), start, end, text);
      if next.Ok? {
        ValidateNewInline(ctx.store[node], next.value);
      }
    }
  }

  lemma {:induction false} MarkRefusal(ctx: Ctx, node: NodeId, start: nat, end: nat, change: MarkChange)
    requires CtxOk(ctx) && ApplyMarkChange(ctx, node, start, end, change).Err?
    ensures ApplyMarkChange(ctx, node, start, end, change).error == TextError(ctx, node, start, end)
  {
    hide IsTree, Validate, Chars, Boundary, RangeCheck, WfContent, NodeOk, SpansOf, ChangeChars;
    hide MarkChangeInverse, Group;
    if IsText(ctx, node) {
      NodeInTree(ctx.store, ctx.root, node);
      CheckedRange(Chars(TextOf(ctx, node).runs), start, end);
      var next := MarksChanged(TextOf(ctx, node), start, end, change);
      if next.Ok? {
        ValidateNewInline(ctx.store[node], next.value);
      }
    }
  }

  function InlineTextError(ctx: Ctx, at: InlinePoint, end: nat): Error {
    if !IsText(ctx, at.node) then Missing(ctx, at.node)
    else if !InRange(ctx, at.node, at.offset, end) then
      RangeError(Chars(TextOf(ctx, at.node).runs), at.offset, end)
    else if !IsGap(ctx, at) then InvalidSelection
    else InvalidTransaction
  }

  lemma {:induction false} InlineTextRefusal(ctx: Ctx, at: InlinePoint, end: nat, text: seq<byte>)
    requires CtxOk(ctx) && ValidUtf8(text) && ApplyReplaceInlineText(ctx, at, end, text).Err?
    ensures ApplyReplaceInlineText(ctx, at, end, text).error == InlineTextError(ctx, at, end)
  {
    hide CtxOk, ValidUtf8, Chars, Boundary, RangeCheck, WfContent, SpansOf, ReplaceInlineTextInverse, SeamAccepts;
    hide InheritedMarks, InlineTextReplaced, AtomsKnown, ValidCaret, ReplacesItems, Marked, Texts, CaretIndex;
    InlineTextIsReplaced(ctx, at, end, text);
    if IsText(ctx, at.node) {
      var c := TextOf(ctx, at.node);
      CheckedRange(Chars(c.runs), at.offset, end);
      if RangeCheck(Chars(c.runs), at.offset, end).Pass? {
        EditRefusal(ctx, at, end, text);
      }
    }
  }

  lemma {:induction false} EditRefusal(ctx: Ctx, at: InlinePoint, end: nat, text: seq<byte>)
    requires CtxOk(ctx) && ValidUtf8(text) && IsText(ctx, at.node)
    requires RangeCheck(Chars(TextOf(ctx, at.node).runs), at.offset, end).Pass?
    ensures var r := EditInline(ctx.store, TextOf(ctx, at.node), ReplaceInlineTextStep(at, end, text));
      r.Err? ==> r.error == if IsGap(ctx, at) then InvalidTransaction else InvalidSelection
    ensures var c := TextOf(ctx, at.node);
      var r := EditInline(ctx.store, c, ReplaceInlineTextStep(at, end, text));
      r.Ok? ==>
        && InheritedMarks(ctx.store, r.value, CaretOf(at)).Ok?
        && Validate(ctx.store[at.node].(content := Inline(r.value))).Pass? && ctx.store[at.node].id == at.node
  {
    hide IsTree, Validate, NodeOk, ValidUtf8, Chars, CanonicalRuns, CharsOk, Boundary, RangeCheck, SeamAccepts;
    hide InheritedMarks, InlineTextReplaced, AtomsKnown, SortedAtoms, DistinctAtoms, AnchoredAtoms, ValidCaret;
    hide ReplacesItems, Marked, Texts, CaretIndex;
    var c := TextOf(ctx, at.node);
    TreeKnowsAtoms(ctx.store, ctx.root, at.node);
    InlineEditAccepted(ctx.store, c, at, end, text);
    var r := EditInline(ctx.store, c, ReplaceInlineTextStep(at, end, text));
    if ValidCaret(c, CaretOf(at)) {
      InheritedIsValid(ctx.store, c, CaretOf(at));
      MixedRefusal(c, at, end, text, InheritedMarks(ctx.store, c, CaretOf(at)).value);
      var next := InlineTextReplaced(c, at.offset, at.ordinal, end, text,
                                     InheritedMarks(ctx.store, c, CaretOf(at)).value);
      if next.Ok? {
        SeamCaretStays(c, at.offset, at.ordinal, end, text, InheritedMarks(ctx.store, c, CaretOf(at)).value);
        InheritedIsValid(ctx.store, next.value, CaretOf(at));
      }
    } else {
      NoGapNoMarks(ctx.store, c, at, end);
    }
    if r.Ok? {
      ValidateNewInline(ctx.store[at.node], r.value);
    }
  }

  lemma {:induction false} MixedRefusal(c: InlineContent, at: InlinePoint, end: nat, text: seq<byte>, marks: MarkSet)
    requires ValidCaret(c, CaretOf(at)) && RangeCheck(Chars(c.runs), at.offset, end).Pass?
    ensures var r := InlineTextReplaced(c, at.offset, at.ordinal, end, text, marks);
      r.Err? ==> r.error == InvalidTransaction
  {
    hide Chars, RangeCheck, ClearFrom, MovedAtoms, SpliceChars, Group, FirstAt, CountAt, Boundary;
  }

  lemma {:induction false} NoGapNoMarks(store: Store, c: InlineContent, at: InlinePoint, end: nat)
    requires !ValidCaret(c, CaretOf(at)) && RangeCheck(Chars(c.runs), at.offset, end).Pass?
    ensures InheritedMarks(store, c, CaretOf(at)) == Err(InvalidSelection)
  {
    hide Chars, LeftContribution, RightMarks, SeamLeft, CountAt;
    CheckedRange(Chars(c.runs), at.offset, end);
  }

  // ----- payloads and blocks

  lemma {:induction false} PayloadRefusal(ctx: Ctx, step: TransactionStep)
    requires CtxOk(ctx) && ApplyStep(ctx, step).Err?
    requires step.SetInlineAtomMarksStep? || step.SetNodeAttrsStep?
    ensures ApplyStep(ctx, step).error
      == if step.SetInlineAtomMarksStep? then Missing(ctx, step.atom)
         else if step.node !in ctx.store then UnknownNode
         else NodeError(ctx.store[step.node].(attrs := step.attrs))
  {
    hide IsTree, Validate, NodeOk;
    var id := if step.SetInlineAtomMarksStep? then step.atom else step.node;
    if id in ctx.store {
      NodeInTree(ctx.store, ctx.root, id);
      if step.SetInlineAtomMarksStep? && ctx.store[id].content.AtomPayload? {
        MarksStayValid(ctx.store[id], step.marks);
      }
    }
  }

  ghost function KindError(ctx: Ctx, node: NodeId, kind: NodeKind): Error {
    if node !in ctx.store then UnknownNode
    else if node == ctx.root then InvalidRootNode
    else if !IsChild(ctx, node) then UnknownNode
    else if !exists p :: ChildEdge(ctx.store, p, node) && AllowsChild(ctx.store[p].kind, kind) then InvalidChildKind
    else NodeError(ctx.store[node].(kind := kind))
  }

  lemma {:induction false} KindRefusal(ctx: Ctx, node: NodeId, kind: NodeKind)
    requires CtxOk(ctx) && ApplySetNodeKind(ctx, node, kind).Err?
    ensures ApplySetNodeKind(ctx, node, kind).error == KindError(ctx, node, kind)
  {
    hide IsTree, Validate, NodeOk, AllowsChild, ChildEdge, ParentOf;
    if node in ctx.store {
      NodeInTree(ctx.store, ctx.root, node);
      ParentCases(ctx, node);
      if !IsChild(ctx, node) {
        NoParent(ctx, node);
      }
    }
  }

  lemma {:induction false} InsertRefusal(ctx: Ctx, parent: NodeId, index: nat, kind: NodeKind, attrs: NodeAttrs,
                                         content: NodeContent)
    requires CtxOk(ctx) && ApplyInsertNode(ctx, parent, index, kind, attrs, content).Err?
    ensures ApplyInsertNode(ctx, parent, index, kind, attrs, content).error
      == if !HasPlace(ctx, parent, index) then Missing(ctx, parent)
         else if !CanName(ctx.nextId) then NodeIdExhausted
         else NodeError(Node(ctx.nextId, kind, attrs, content))
  {
    hide IsTree, Validate, NodeOk;
    if HasPlace(ctx, parent, index) {
      NodeInTree(ctx.store, ctx.root, parent);
      ValidateNewChildren(ctx.store[parent], InsertId(ctx.store[parent].content.children, index, ctx.nextId));
    }
  }

  lemma {:induction false} RemoveRefusal(ctx: Ctx, node: NodeId)
    requires CtxOk(ctx) && ApplyRemoveNode(ctx, node).Err?
    ensures ApplyRemoveNode(ctx, node).error == if node == ctx.root then InvalidTransaction else UnknownNode
  {
    hide IsTree, Validate, NodeOk, ChildEdge, ParentOf, WithoutId, Subtree, PositionOf, PayloadsOf, ApplyRemoveNode;
    NodeIsRemoved(ctx, node);
    NoParent(ctx, node);
    RemoveFirst(ctx, node);
  }

  lemma NoParent(ctx: Ctx, node: NodeId)
    requires CtxOk(ctx) && !IsChild(ctx, node)
    ensures ParentOf(ctx.store, node) == Err(UnknownNode)
  {
    hide CtxOk, ChildEdge;
  }

  lemma RemoveFirst(ctx: Ctx, node: NodeId)
    ensures node == ctx.root ==> ApplyRemoveNode(ctx, node) == Err(InvalidTransaction)
    ensures node != ctx.root && ParentOf(ctx.store, node).Err? ==>
      ApplyRemoveNode(ctx, node) == Err(ParentOf(ctx.store, node).error)
  {
    hide ParentOf, Subtree, PayloadsOf;
  }

  lemma {:induction false} CheckFails(nodes: seq<Node>, nextId: nat)
    ensures CheckRestored(nodes, nextId).Err? ==>
      CheckRestored(nodes, nextId).error in {DuplicateChildReference, NodeIdExhausted}
    ensures (forall i :: 0 <= i < |nodes| ==> CanName(nodes[i].id)) && CheckRestored(nodes, nextId).Err? ==>
      CheckRestored(nodes, nextId).error == DuplicateChildReference
    ensures DistinctIds(nodes) && CheckRestored(nodes, nextId).Err? ==>
      CheckRestored(nodes, nextId).error == NodeIdExhausted
  {
    if nodes != [] {
      var n := |nodes| - 1;
      CheckFails(nodes[..n], nextId);
      assert forall i :: 0 <= i < n ==> nodes[..n][i] == nodes[i];
    }
  }

  // Identities in use or the top missing; the place; then repeated identities
  // or exhausted ones, whichever the list shows alone.
  lemma {:induction false} RestoreRefusal(ctx: Ctx, parent: NodeId, index: nat, top: NodeId, nodes: seq<Node>)
    requires CtxOk(ctx) && ApplyRestoreSubtree(ctx, parent, index, top, nodes).Err?
    ensures var error := ApplyRestoreSubtree(ctx, parent, index, top, nodes).error;
      if top !in Ids(nodes) || exists i :: 0 <= i < |nodes| && nodes[i].id in ctx.store then error == InvalidTransaction
      else if !HasPlace(ctx, parent, index) then error == Missing(ctx, parent)
      else
        && (DistinctIds(nodes) ==> error == NodeIdExhausted)
        && ((forall i :: 0 <= i < |nodes| ==> CanName(nodes[i].id)) ==> error == DuplicateChildReference)
  {
    hide IsTree, Validate, NodeOk, CheckRestored, PutNodes, DistinctIds, Ids;
    CheckFails(nodes, ctx.nextId);
    if HasPlace(ctx, parent, index) {
      NodeInTree(ctx.store, ctx.root, parent);
      ValidateNewChildren(ctx.store[parent], InsertId(ctx.store[parent].content.children, index, top));
    }
  }

  // ----- atoms

  function AtGapError(ctx: Ctx, at: InlinePoint): Error {
    if !IsText(ctx, at.node) then Missing(ctx, at.node) else GapError(TextOf(ctx, at.node), CaretOf(at))
  }

  lemma GapRefusal(ctx: Ctx, at: InlinePoint)
    ensures GapCheck(ctx.store, at).Pass? <==> IsGap(ctx, at)
    ensures GapCheck(ctx.store, at).Fail? ==> GapCheck(ctx.store, at).error == AtGapError(ctx, at)
  {
    hide Chars, CountAt, Boundary;
    if IsText(ctx, at.node) {
      CheckedOffset(Chars(TextOf(ctx, at.node).runs), at.offset);
    }
  }

  lemma {:induction false} InsertAtomRefusal(ctx: Ctx, at: InlinePoint, atomKind: AtomKind, attrs: NodeAttrs,
                                             fallback: seq<byte>, marks: MarkSet)
    requires CtxOk(ctx) && ApplyInsertInlineAtom(ctx, at, atomKind, attrs, fallback, marks).Err?
    ensures ApplyInsertInlineAtom(ctx, at, atomKind, attrs, fallback, marks).error
      == if !IsGap(ctx, at) then AtGapError(ctx, at)
         else if !CanName(ctx.nextId) then NodeIdExhausted
         else NodeError(Node(ctx.nextId, InlineAtom(atomKind), attrs, AtomPayload(fallback, marks)))
  {
    hide IsTree, Validate, NodeOk, AtomAttached, ReplacesItems, CaretIndex, WfContent, ValidCaret, GapCheck, Attach;
    GapRefusal(ctx, at);
    AtomIsInserted(ctx, at, atomKind, attrs, fallback, marks);
    if IsText(ctx, at.node) {
      PlaceAccepted(ctx, at, Node(ctx.nextId, InlineAtom(atomKind), attrs, AtomPayload(fallback, marks)), ctx.nextId);
    }
  }

  lemma {:induction false} RestoreAtomRefusal(ctx: Ctx, at: InlinePoint, payload: Node)
    requires CtxOk(ctx) && ApplyRestoreInlineAtom(ctx, at, payload).Err?
    ensures ApplyRestoreInlineAtom(ctx, at, payload).error
      == if payload.id in ctx.store || !payload.kind.InlineAtom? || !payload.content.AtomPayload? then
           InvalidTransaction
         else if !IsGap(ctx, at) then AtGapError(ctx, at)
         else NodeIdExhausted
  {
    hide IsTree, Validate, NodeOk, AtomAttached, ReplacesItems, CaretIndex, WfContent, ValidCaret, GapCheck, Attach;
    GapRefusal(ctx, at);
    if IsText(ctx, at.node) && payload.id !in ctx.store {
      PlaceAccepted(ctx, at, payload, ctx.nextId);
    }
  }

  lemma {:induction false} RemoveAtomRefusal(ctx: Ctx, atom: NodeId)
    requires CtxOk(ctx) && ApplyRemoveInlineAtom(ctx, atom).Err?
    ensures ApplyRemoveInlineAtom(ctx, atom).error
      == if atom in ctx.store && !ctx.store[atom].kind.InlineAtom? then InvalidTransaction else UnknownNode
  {
    hide IsTree, Validate, NodeOk, PlacesAtom, AtomDetached, Identities, PositionOf, AtomParentOf, CountAt;
    hide ApplyRemoveInlineAtom, TakesOut;
    AtomIsRemoved(ctx, atom);
    RemoveAtomFirst(ctx, atom);
  }

  lemma RemoveAtomFirst(ctx: Ctx, atom: NodeId)
    requires !exists p :: PlacesAtom(ctx.store, p, atom)
    ensures ApplyRemoveInlineAtom(ctx, atom)
      == Err(if atom in ctx.store && !ctx.store[atom].kind.InlineAtom? then InvalidTransaction else UnknownNode)
  {
    hide PlacesAtom;
  }

  // ----- splits and joins

  lemma SplitErrors(c: InlineContent, p: Caret)
    requires SortedAtoms(c.atoms)
    ensures SplitAt(c, p).Err? ==> SplitAt(c, p).error == GapError(c, p)
  {
    hide Chars, Boundary, FirstAt, CountAt, Group;
    CheckedOffset(Chars(c.runs), p.offset);
    if p.ordinal <= CountAt(c.atoms, p.offset) {
      CaretCuts(c.atoms, p);
    }
  }

  ghost function SplitError(ctx: Ctx, at: InlinePoint): Error {
    if !IsGap(ctx, at) then AtGapError(ctx, at)
    else if !IsChild(ctx, at.node) then UnknownNode
    else NodeIdExhausted
  }

  lemma {:induction false} SplitFirst(ctx: Ctx, at: InlinePoint, restored: Option<Node>, mixed: bool)
    requires CtxOk(ctx) && SplitInline(ctx, at, restored, mixed).Err?
    ensures !IsGap(ctx, at) ==> SplitInline(ctx, at, restored, mixed).error == AtGapError(ctx, at)
    ensures IsGap(ctx, at) && !IsChild(ctx, at.node) ==>
      SplitInline(ctx, at, restored, mixed).error == UnknownNode
    ensures IsGap(ctx, at) && IsChild(ctx, at.node) ==>
      SplitAt(TextOf(ctx, at.node), CaretOf(at)).Ok?
      && GrowTail(ctx, at.node, SplitAt(TextOf(ctx, at.node), CaretOf(at)).value.1, restored)
         == Err(SplitInline(ctx, at, restored, mixed).error)
  {
    hide CtxOk, WfContent, SplitAt, ParentOf, PositionOf, GrowTail, ChildEdge, InsertId, ValidCaret, Cuts, SplitsOff;
    ParentCases(ctx, at.node);
    if IsText(ctx, at.node) {
      TextIsWf(ctx, at.node);
      WfIsSorted(TextOf(ctx, at.node));
      SplitCuts(TextOf(ctx, at.node), CaretOf(at));
      SplitErrors(TextOf(ctx, at.node), CaretOf(at));
      SplitMeans(ctx, at, restored, mixed);
      if !IsChild(ctx, at.node) {
        NoParent(ctx, at.node);
      }
    }
  }

  lemma WfIsSorted(c: InlineContent)
    requires WfContent(c)
    ensures SortedAtoms(c.atoms)
  {
    hide Chars, CharsOk;
  }

  lemma {:induction false} SplitRefusal(ctx: Ctx, at: InlinePoint, mixed: bool)
    requires CtxOk(ctx) && SplitInline(ctx, at, None, mixed).Err?
    ensures SplitInline(ctx, at, None, mixed).error == SplitError(ctx, at)
  {
    hide CtxOk, WfContent, SplitAt, SplitInline, ValidCaret, Validate;
    SplitFirst(ctx, at, None, mixed);
    if IsGap(ctx, at) && IsChild(ctx, at.node) {
      TailIsGrown(ctx, at.node, SplitAt(TextOf(ctx, at.node), CaretOf(at)).value.1);
    }
  }

  lemma {:induction false} SplitNodeRefusal(ctx: Ctx, node: NodeId, offset: nat)
    requires CtxOk(ctx) && ApplySplitNode(ctx, node, offset).Err?
    ensures ApplySplitNode(ctx, node, offset).error
      == if !IsText(ctx, node) then Missing(ctx, node)
         else if !Boundary(Chars(TextOf(ctx, node).runs), offset) then
           OffsetError(Chars(TextOf(ctx, node).runs), offset)
         else if TextOf(ctx, node).atoms != [] then InvalidTransaction
         else SplitError(ctx, InlinePoint(node, offset, 0, BeforeGlyph))
  {
    hide CtxOk, SplitInline, Chars, Boundary, SplitError;
    if IsText(ctx, node) {
      CheckedOffset(Chars(TextOf(ctx, node).runs), offset);
      if SplitInline(ctx, InlinePoint(node, offset, 0, BeforeGlyph), None, false).Err? {
        SplitRefusal(ctx, InlinePoint(node, offset, 0, BeforeGlyph), false);
      }
    }
  }

  lemma {:induction false} RestoreJoinedRefusal(ctx: Ctx, at: InlinePoint, payload: Node)
    requires CtxOk(ctx) && NodeOk(payload) && ApplyRestoreJoinedNode(ctx, at, payload).Err?
    ensures ApplyRestoreJoinedNode(ctx, at, payload).error
      == if payload.id in ctx.store || !payload.content.Inline? then InvalidTransaction
         else if !IsGap(ctx, at) then AtGapError(ctx, at)
         else if !IsChild(ctx, at.node) then UnknownNode
         else if !HoldsRest(TextOf(ctx, at.node), CaretOf(at), payload.content.inline) then InvalidTransaction
         else NodeIdExhausted
  {
    hide CtxOk, SplitInline, SplitAt, ValidCaret, GrowTail, WfContent, HoldsRest, Validate, Cuts;
    if IsText(ctx, at.node) && payload.content.Inline? && payload.id !in ctx.store {
      var c := TextOf(ctx, at.node);
      if SplitInline(ctx, at, Some(payload), c.atoms != []).Err? {
        SplitFirst(ctx, at, Some(payload), c.atoms != []);
        if IsGap(ctx, at) && IsChild(ctx, at.node) {
          TextIsWf(ctx, at.node);
          RestIsTail(c, CaretOf(at), payload.content.inline);
          TailRefusal(ctx, at.node, SplitAt(c, CaretOf(at)).value.1, payload);
        }
      }
    }
  }

  lemma TailRefusal(ctx: Ctx, node: NodeId, half: InlineContent, payload: Node)
    requires node in ctx.store && payload.id !in ctx.store && GrowTail(ctx, node, half, Some(payload)).Err?
    ensures GrowTail(ctx, node, half, Some(payload)).error
      == if payload.content != Inline(half) then InvalidTransaction else NodeIdExhausted
  {}

  lemma {:induction false} JoinRefusal(ctx: Ctx, first: NodeId, second: NodeId)
    requires CtxOk(ctx) && ApplyJoinNodes(ctx, first, second).Err?
    ensures ApplyJoinNodes(ctx, first, second).error
      == if !IsText(ctx, first) then Missing(ctx, first)
         else if !IsText(ctx, second) then Missing(ctx, second)
         else if first != second && !IsChild(ctx, first) then UnknownNode
         else InvalidTransaction
  {
    hide IsTree, Validate, NodeOk, ParentOf, PositionOf, WfContent, JoinGap, ChildEdge, Joined;
    if IsText(ctx, first) && IsText(ctx, second) && first != second {
      ParentCases(ctx, first);
      AtomsApart(ctx, first, second);
      if !IsChild(ctx, first) {
        NoParent(ctx, first);
      } else {
        var p :| ChildEdge(ctx.store, p, first);
        NodeInTree(ctx.store, ctx.root, first);
        ValidateNewInline(ctx.store[first], Joined(TextOf(ctx, first), TextOf(ctx, second)).value);
        ValidateNewChildren(ctx.store[p], []);
      }
    }
  }

  // ----- any step

  // The error is that of the first rule the step breaks.
  ghost predicate Reports(ctx: Ctx, step: TransactionStep, error: Error) {
    match step
    case ReplaceTextStep(node, start, end, _) => error == TextError(ctx, node, start, end)
    case AddMarkStep(node, start, end, _) => error == TextError(ctx, node, start, end)
    case RemoveMarkStep(node, start, end, _) => error == TextError(ctx, node, start, end)
    case ReplaceInlineTextStep(at, end, _) => error == InlineTextError(ctx, at, end)
    case SetInlineAtomMarksStep(atom, _) => error == Missing(ctx, atom)
    case SetNodeAttrsStep(node, attrs) =>
      error == if node !in ctx.store then UnknownNode else NodeError(ctx.store[node].(attrs := attrs))
    case SetNodeKindStep(node, kind) => error == KindError(ctx, node, kind)
    case InsertNodeStep(parent, index, kind, attrs, content) =>
      error == if !HasPlace(ctx, parent, index) then Missing(ctx, parent)
               else if !CanName(ctx.nextId) then NodeIdExhausted
               else NodeError(Node(ctx.nextId, kind, attrs, content))
    case RemoveNodeStep(node) => error == if node == ctx.root then InvalidTransaction else UnknownNode
    case RestoreSubtreeStep(parent, index, top, nodes) =>
      if top !in Ids(nodes) || exists i :: 0 <= i < |nodes| && nodes[i].id in ctx.store then
        error == InvalidTransaction
      else if !HasPlace(ctx, parent, index) then error == Missing(ctx, parent)
      else
        && (DistinctIds(nodes) ==> error == NodeIdExhausted)
        && ((forall i :: 0 <= i < |nodes| ==> CanName(nodes[i].id)) ==> error == DuplicateChildReference)
    case InsertInlineAtomStep(at, kind, attrs, fallback, marks) =>
      error == if !IsGap(ctx, at) then AtGapError(ctx, at)
               else if !CanName(ctx.nextId) then NodeIdExhausted
               else NodeError(Node(ctx.nextId, InlineAtom(kind), attrs, AtomPayload(fallback, marks)))
    case RestoreInlineAtomStep(at, payload) =>
      error == if payload.id in ctx.store || !payload.kind.InlineAtom? || !payload.content.AtomPayload? then
                 InvalidTransaction
               else if !IsGap(ctx, at) then AtGapError(ctx, at)
               else NodeIdExhausted
    case RemoveInlineAtomStep(atom) =>
      error == if atom in ctx.store && !ctx.store[atom].kind.InlineAtom? then InvalidTransaction else UnknownNode
    case SplitInlineNodeStep(at) => error == SplitError(ctx, at)
    case SplitNodeStep(node, offset) =>
      error == if !IsText(ctx, node) then Missing(ctx, node)
               else if !Boundary(Chars(TextOf(ctx, node).runs), offset) then
                 OffsetError(Chars(TextOf(ctx, node).runs), offset)
               else if TextOf(ctx, node).atoms != [] then InvalidTransaction
               else SplitError(ctx, InlinePoint(node, offset, 0, BeforeGlyph))
    case RestoreJoinedNodeStep(at, payload) =>
      error == if payload.id in ctx.store || !payload.content.Inline? then InvalidTransaction
               else if !IsGap(ctx, at) then AtGapError(ctx, at)
               else if !IsChild(ctx, at.node) then UnknownNode
               else if !HoldsRest(TextOf(ctx, at.node), CaretOf(at), payload.content.inline) then InvalidTransaction
               else NodeIdExhausted
    case JoinNodesStep(first, second) =>
      error == if !IsText(ctx, first) then Missing(ctx, first)
               else if !IsText(ctx, second) then Missing(ctx, second)
               else if first != second && !IsChild(ctx, first) then UnknownNode
               else InvalidTransaction
  }

  lemma {:induction false} StepRefusal(ctx: Ctx, step: TransactionStep)
    requires CtxOk(ctx) && WellTyped(step) && ApplyStep(ctx, step).Err?
    ensures Reports(ctx, step, ApplyStep(ctx, step).error)
  {
    hide CtxOk, ApplyReplaceText, ApplyReplaceInlineText, ApplyMarkChange, ApplyInsertInlineAtom, NodeError, KindError;
    hide ApplyRemoveInlineAtom, ApplyRestoreInlineAtom, ApplyInsertNode, ApplyRestoreSubtree, Ids, DistinctIds;
    hide ApplyRemoveNode, ApplySetNodeKind, ApplySplitNode, SplitInline, ApplyRestoreJoinedNode, IsText, IsGap;
    hide ApplyJoinNodes, ValidUtf8, NodeOk, Chars, Boundary, HoldsRest, IsChild, HasPlace, TextError, SplitError;
    match step {
      case ReplaceTextStep(node, start, end, text) => TextRefusal(ctx, node, start, end, text);
      case ReplaceInlineTextStep(at, end, text) => InlineTextRefusal(ctx, at, end, text);
      case InsertInlineAtomStep(at, kind, attrs, fallback, marks) =>
        InsertAtomRefusal(ctx, at, kind, attrs, fallback, marks);
      case RemoveInlineAtomStep(atom) => RemoveAtomRefusal(ctx, atom);
      case SetInlineAtomMarksStep(_, _) => PayloadRefusal(ctx, step);
      case RestoreInlineAtomStep(at, payload) => RestoreAtomRefusal(ctx, at, payload);
      case InsertNodeStep(parent, index, kind, attrs, content) =>
        InsertRefusal(ctx, parent, index, kind, attrs, content);
      case RestoreSubtreeStep(parent, index, top, nodes) => RestoreRefusal(ctx, parent, index, top, nodes);
      case RemoveNodeStep(node) => RemoveRefusal(ctx, node);
      case SetNodeAttrsStep(_, _) => PayloadRefusal(ctx, step);
      case SetNodeKindStep(node, kind) => KindRefusal(ctx, node, kind);
      case AddMarkStep(node, start, end, mark) => MarkRefusal(ctx, node, start, end, Add(mark));
      case RemoveMarkStep(node, start, end, kind) => MarkRefusal(ctx, node, start, end, Remove(kind));
      case SplitNodeStep(node, offset) => SplitNodeRefusal(ctx, node, offset);
      case SplitInlineNodeStep(at) => SplitRefusal(ctx, at, true);
      case RestoreJoinedNodeStep(at, payload) => RestoreJoinedRefusal(ctx, at, payload);
      case JoinNodesStep(first, second) => JoinRefusal(ctx, first, second);
    }
  }
}
