// When each step is accepted and what it then leaves, said over payloads,
// flattened items and child lists
// (crates/xiaomu-core/src/transaction/apply.rs, apply/atom.rs, apply/structure.rs,
// apply/subtree_restore.rs).
module StepEffects {
  import opened Wrappers
  import opened Numbers
  import opened Text
  import opened Marks
  import opened Content
  import opened InlineEdit
  import opened Flat
  import opened InlineLaws
  import opened Nodes
  import opened InputMarks
  import opened InputRules
  import opened Mapping
  import opened Steps
  import opened Inverse
  import opened InlineUndo
  import opened Structure
  import opened Tree
  import opened WorkingStore
  import opened Apply
  import opened Undo
  import opened UndoTree
  import opened UndoAtoms
  import opened UndoRun

  // ----- what a step needs

  predicate IsText(ctx: Ctx, node: NodeId) {
    node in ctx.store && ctx.store[node].content.Inline?
  }

  predicate InRange(ctx: Ctx, node: NodeId, start: nat, end: nat) {
    && IsText(ctx, node) && start <= end
    && Boundary(Chars(ctx.store[node].content.inline.runs), start)
    && Boundary(Chars(ctx.store[node].content.inline.runs), end)
  }

  predicate IsGap(ctx: Ctx, at: InlinePoint) {
    IsText(ctx, at.node) && ValidCaret(ctx.store[at.node].content.inline, CaretOf(at))
  }

  predicate CanName(id: NodeId) {
    id + 1 < U64_LIMIT
  }

  ghost predicate IsChild(ctx: Ctx, node: NodeId) {
    exists p :: ChildEdge(ctx.store, p, node)
  }

  // No atom touches the closed range.
  predicate ClearOfAtoms(ctx: Ctx, node: NodeId, start: nat, end: nat)
    requires IsText(ctx, node)
  {
    forall i :: 0 <= i < |ctx.store[node].content.inline.atoms| ==>
      !(start <= ctx.store[node].content.inline.atoms[i].offset <= end)
  }

  predicate NextSibling(ctx: Ctx, parent: NodeId, first: NodeId, second: NodeId) {
    && parent in ctx.store && ctx.store[parent].content.Children?
    && var children := ctx.store[parent].content.children;
      exists i :: 0 <= i < |children| - 1 && children[i] == first && children[i + 1] == second
  }

  // ----- payload steps

  lemma {:induction false} AttrsAreSet(ctx: Ctx, node: NodeId, attrs: NodeAttrs)
    requires CtxOk(ctx)
    ensures var r := ApplySetNodeAttrs(ctx, node, attrs);
      && (r.Ok? <==> node in ctx.store && Validate(ctx.store[node].(attrs := attrs)).Pass?)
      && (r.Ok? ==> r.value.ctx == ctx.(store := ctx.store[node := ctx.store[node].(attrs := attrs)]))
  {
    hide IsTree, Validate, NodeOk;
    if node in ctx.store {
      NodeInTree(ctx.store, ctx.root, node);
    }
  }

  lemma {:induction false} AtomMarksAreSet(ctx: Ctx, atom: NodeId, marks: MarkSet)
    requires CtxOk(ctx)
    ensures var r := ApplySetInlineAtomMarks(ctx, atom, marks);
      && (r.Ok? <==> atom in ctx.store && ctx.store[atom].content.AtomPayload?)
      && (r.Ok? ==> r.value.ctx == ctx.(store := ctx.store[atom := ctx.store[atom].(content :=
            AtomPayload(ctx.store[atom].content.fallback, marks))]))
  {
    hide IsTree, Validate, NodeOk;
    if atom in ctx.store {
      NodeInTree(ctx.store, ctx.root, atom);
      if ctx.store[atom].content.AtomPayload? {
        MarksStayValid(ctx.store[atom], marks);
      }
    }
  }

  // Validity does not depend on an atom's marks.
  lemma MarksStayValid(node: Node, marks: MarkSet)
    requires Validate(node).Pass? && node.content.AtomPayload?
    ensures Validate(node.(content := AtomPayload(node.content.fallback, marks))).Pass?
  {}

  lemma {:induction false} KindIsSet(ctx: Ctx, node: NodeId, kind: NodeKind)
    requires CtxOk(ctx)
    ensures var r := ApplySetNodeKind(ctx, node, kind);
      && (r.Ok? <==> node in ctx.store && node != ctx.root && Validate(ctx.store[node].(kind := kind)).Pass?
                     && exists p :: ChildEdge(ctx.store, p, node) && AllowsChild(ctx.store[p].kind, kind))
      && (r.Ok? ==> r.value.ctx == ctx.(store := ctx.store[node := ctx.store[node].(kind := kind)]))
  {
    hide IsTree, Validate, NodeOk, AllowsChild, ChildEdge;
    if node in ctx.store {
      NodeInTree(ctx.store, ctx.root, node);
      ParentCases(ctx, node);
    }
  }

  // The recorded parent is the one with the child edge, or there is none.
  lemma {:induction false} ParentCases(ctx: Ctx, node: NodeId)
    requires CtxOk(ctx)
    ensures ParentOf(ctx.store, node).Ok? <==> IsChild(ctx, node)
    ensures forall p :: ChildEdge(ctx.store, p, node) ==>
      ParentOf(ctx.store, node) == Ok(p) && p in ctx.store && ctx.store[p].content.Children? && p != node
      && node in ctx.store[p].content.children && ctx.store[p].id == p && Validate(ctx.store[p]).Pass?
      && node in ctx.store && node != ctx.root
  {
    hide IsTree, Validate, NodeOk;
    forall p | ChildEdge(ctx.store, p, node)
      ensures ParentOf(ctx.store, node) == Ok(p) && p != node && ctx.store[p].id == p && Validate(ctx.store[p]).Pass?
      ensures node in ctx.store && node != ctx.root
    {
      ParentIs(ctx.store, ctx.root, p, node);
      NodeInTree(ctx.store, ctx.root, p);
    }
  }

  // ----- edits of flattened items

  // `c'` is `c` with `removed` items from `at` on replaced.
  ghost predicate ReplacesItems(c: InlineContent, c': InlineContent, at: nat, removed: nat, items: seq<Item>) {
    && WfContent(c) && WfContent(c') && Placed(Chars(c.runs), c.atoms) && Placed(Chars(c'.runs), c'.atoms)
    && at + removed <= |FlatOf(c)|
    && FlatOf(c') == FlatOf(c)[..at] + items + FlatOf(c)[at + removed..]
  }

  lemma {:induction false} AttachSplices(c: InlineContent, p: Caret, atom: NodeId)
    requires WfContent(c) && AtomAttached(c, p, atom).Ok?
    ensures ReplacesItems(c, AtomAttached(c, p, atom).value, CaretIndex(c.atoms, p), 0, [AtomItem(atom)])
  {
    hide Chars, CharsOk, CanonicalRuns, DistinctAtoms, AnchoredAtoms, Boundary, FirstAt, CountAt, Flatten, Texts;
    WfIsPlaced(c);
    AttachedWf(c, p, atom);
    var r := AtomAttached(c, p, atom).value;
    WfIsPlaced(r);
    var cs, cut := Chars(c.runs), CaretCut(c.atoms, p);
    OffsetInText(cs, p.offset);
    CaretSplitsItems(cs, c.atoms, p);
    assert r.atoms[..cut + 1] == c.atoms[..cut] + [Placement(atom, p.offset)];
    assert r.atoms[cut + 1..] == c.atoms[cut..];
    FlattenCut(cs, r.atoms, p.offset, cut + 1);
    AttachedFront(cs[..p.offset], c.atoms[..cut], atom);
  }

  lemma {:induction false} AttachedFront(cs: seq<Char>, atoms: seq<Placement>, atom: NodeId)
    requires Placed(cs, atoms) && Placed(cs, atoms + [Placement(atom, |cs|)])
    ensures Flatten(cs, atoms + [Placement(atom, |cs|)]) == Flatten(cs, atoms) + [AtomItem(atom)]
  {
    hide Flatten;
    var all := atoms + [Placement(atom, |cs|)];
    FlattenLast(cs, all);
    assert all[..|all| - 1] == atoms && cs[..|cs|] == cs && cs[|cs|..] == [];
  }

  lemma {:induction false} DetachSplices(c: InlineContent, j: nat)
    requires WfContent(c) && j < |c.atoms|
    ensures var d := AtomDetached(c, j); var at := CaretIndex(d.atoms, GapBefore(c.atoms, j));
      && ReplacesItems(c, d, at, 1, []) && FlatOf(c)[at] == AtomItem(c.atoms[j].atom)
  {
    hide Chars, CharsOk, CanonicalRuns, DistinctAtoms, AnchoredAtoms, FirstAt, CountAt, Flatten, AtomAttached;
    DetachedWf(c, j);
    AttachUndoesDetach(c, j);
    AttachSplices(AtomDetached(c, j), GapBefore(c.atoms, j), c.atoms[j].atom);
  }

  lemma {:induction false} JoinConcatenates(a: InlineContent, b: InlineContent)
    requires WfContent(a) && WfContent(b) && Joined(a, b).Ok?
    ensures var c := Joined(a, b).value;
      && WfContent(c) && Placed(Chars(a.runs), a.atoms) && Placed(Chars(b.runs), b.atoms)
      && Placed(Chars(c.runs), c.atoms) && FlatOf(c) == FlatOf(a) + FlatOf(b)
  {
    hide Chars, CharsOk, CanonicalRuns, DistinctAtoms, AnchoredAtoms, FirstAt, CountAt, Flatten, Joined, SplitAt;
    JoinedWf(a, b);
    SplitUndoesJoin(a, b);
    SplitIsCut(Joined(a, b).value, JoinGap(a));
  }

  // ----- text and mark steps

  // Only the inline content of one node differs.
  ghost predicate EditsOnly(ctx: Ctx, ctx': Ctx, node: NodeId) {
    && IsText(ctx, node) && IsText(ctx', node)
    && ctx' == ctx.(store := ctx.store[node := ctx.store[node].(content := ctx'.store[node].content)])
  }

  // The marks of the character before an offset, at the start of the first one.
  function TextMarks(cs: seq<Char>, offset: nat): MarkSet
    requires offset <= |cs|
  {
    if cs == [] then NO_MARKS else cs[if offset == 0 then 0 else offset - 1].marks
  }

  lemma {:induction false} TextIsReplaced(ctx: Ctx, node: NodeId, start: nat, end: nat, text: seq<byte>)
    requires CtxOk(ctx) && ValidUtf8(text)
    ensures var r := ApplyReplaceText(ctx, node, start, end, text);
      && (r.Ok? <==> InRange(ctx, node, start, end) && ClearOfAtoms(ctx, node, start, end))
      && (r.Ok? ==>
            && EditsOnly(ctx, r.value.ctx, node)
            && var c := ctx.store[node].content.inline;
              && start <= |Chars(c.runs)|
              && ReplacesItems(c, r.value.ctx.store[node].content.inline, CaretIndex(c.atoms, Caret(start, 0)),
                               end - start, Texts(Marked(text, TextMarks(Chars(c.runs), start)))))
  {
    hide IsTree, Validate, ValidUtf8, Chars, Boundary, TextReplaced, WfContent, Inherited, ReplacesItems, SpansOf;
    hide ReplaceTextInverse, CaretIndex, Texts, Marked;
    if IsText(ctx, node) {
      var c := ctx.store[node].content.inline;
      TreeKnowsAtoms(ctx.store, ctx.root, node);
      TextEditAccepted(c, start, end, text);
      if TextReplaced(c, start, end, text).Ok? {
        ValidateNewInline(ctx.store[node], TextReplaced(c, start, end, text).value);
        TextEditSplices(c, start, end, text);
      }
    }
  }

  lemma {:induction false} TextEditAccepted(c: InlineContent, start: nat, end: nat, text: seq<byte>)
    requires WfContent(c)
    ensures TextReplaced(c, start, end, text).Ok? <==>
      && start <= end && Boundary(Chars(c.runs), start) && Boundary(Chars(c.runs), end)
      && NoAtomTouches(c.atoms, start, end)
  {
    hide Chars, CharsOk, CanonicalRuns, Boundary, Inherited, TextReplaced;
    BoundaryIsOffset(Chars(c.runs), start);
    BoundaryIsOffset(Chars(c.runs), end);
    if TextReplaced(c, start, end, text).Ok? {
      TextIsInline(c, start, end, text);
    } else if RangeCheck(Chars(c.runs), start, end).Pass? && NoAtomTouches(c.atoms, start, end) {
      TextAccepted(c, start, end, text);
    }
  }

  lemma BoundaryIsOffset(cs: seq<Char>, offset: nat)
    ensures OffsetCheck(cs, offset).Pass? <==> Boundary(cs, offset)
  {}

  lemma {:induction false} TextEditSplices(c: InlineContent, start: nat, end: nat, text: seq<byte>)
    requires WfContent(c) && ValidUtf8(text) && TextReplaced(c, start, end, text).Ok?
    ensures start <= end && start <= |Chars(c.runs)|
    ensures ReplacesItems(c, TextReplaced(c, start, end, text).value, CaretIndex(c.atoms, Caret(start, 0)), end - start,
                    Texts(Marked(text, TextMarks(Chars(c.runs), start))))
  {
    hide Chars, CharsOk, CanonicalRuns, Boundary, TextReplaced, ValidUtf8, InlineTextReplaced, Flatten, Texts, Marked;
    hide CaretIndex, Placed;
    TextIsInline(c, start, end, text);
    InheritedValid(Chars(c.runs), start);
    ReplacementIsSplice(c, start, 0, end, text, Inherited(Chars(c.runs), start));
  }

  // What the engine's mixed edit needs, at content level.
  predicate SeamAccepts(c: InlineContent, at: InlinePoint, end: nat) {
    && at.offset <= end && Boundary(Chars(c.runs), end) && ValidCaret(c, CaretOf(at))
    && (at.offset == end
        || (at.ordinal == CountAt(c.atoms, at.offset)
            && forall i :: 0 <= i < |c.atoms| ==> !(at.offset < c.atoms[i].offset < end)))
  }

  lemma {:induction false} InlineTextIsReplaced(ctx: Ctx, at: InlinePoint, end: nat, text: seq<byte>)
    requires CtxOk(ctx) && ValidUtf8(text)
    ensures var r := ApplyReplaceInlineText(ctx, at, end, text);
      && (r.Ok? <==> IsText(ctx, at.node) && SeamAccepts(ctx.store[at.node].content.inline, at, end))
      && (r.Ok? ==>
            && EditsOnly(ctx, r.value.ctx, at.node)
            && var c := ctx.store[at.node].content.inline;
              && InheritedMarks(ctx.store, c, CaretOf(at)).Ok?
              && ReplacesItems(c, r.value.ctx.store[at.node].content.inline, CaretIndex(c.atoms, CaretOf(at)),
                         end - at.offset, Texts(Marked(text, InheritedMarks(ctx.store, c, CaretOf(at)).value))))
  {
    hide IsTree, Validate, ValidUtf8, Chars, Boundary, InlineTextReplaced, WfContent, InheritedMarks, SpansOf;
    hide ReplacesItems;
    hide ReplaceInlineTextInverse, CaretIndex, Texts, Marked, AtomsKnown, EditInline, ValidCaret, SeamAccepts;
    if IsText(ctx, at.node) {
      var c := ctx.store[at.node].content.inline;
      TreeKnowsAtoms(ctx.store, ctx.root, at.node);
      InlineEditAccepted(ctx.store, c, at, end, text);
      var edit := EditInline(ctx.store, c, ReplaceInlineTextStep(at, end, text));
      if edit.Ok? {
        ValidateNewInline(ctx.store[at.node], edit.value);
      }
    }
  }

  lemma {:induction false} SeamIsClear(c: InlineContent, at: InlinePoint, end: nat)
    requires SortedAtoms(c.atoms) && at.offset <= end && ValidCaret(c, CaretOf(at))
    ensures SeamAccepts(c, at, end) <==>
      Boundary(Chars(c.runs), end) && ClearFrom(c.atoms, FirstAt(c.atoms, at.offset) + at.ordinal, end)
  {
    hide FirstAt, CountAt, Chars, Boundary;
    AtomBlocks(c.atoms, at.offset);
    var cut := FirstAt(c.atoms, at.offset) + at.ordinal;
    if at.ordinal < CountAt(c.atoms, at.offset) {
      assert c.atoms[cut].offset == at.offset;
    }
    if SeamAccepts(c, at, end) {
      assert forall i :: cut <= i < |c.atoms| ==> c.atoms[i].offset >= at.offset;
    }
  }

  lemma {:induction false} InlineEditAccepted(store: Store, c: InlineContent, at: InlinePoint, end: nat,
                                              text: seq<byte>)
    requires WfContent(c) && ValidUtf8(text) && AtomsKnown(store, c.atoms)
    ensures var r := EditInline(store, c, ReplaceInlineTextStep(at, end, text));
      && (r.Ok? <==> SeamAccepts(c, at, end))
      && (r.Ok? ==> && InheritedMarks(store, c, CaretOf(at)).Ok? && InheritedMarks(store, r.value, CaretOf(at)).Ok?
                    && ReplacesItems(c, r.value, CaretIndex(c.atoms, CaretOf(at)), end - at.offset,
                               Texts(Marked(text, InheritedMarks(store, c, CaretOf(at)).value))))
  {
    hide Chars, CharsOk, CanonicalRuns, Boundary, ValidUtf8, InheritedMarks, SpliceChars, MovedAtoms, Group;
    hide FirstAt, CountAt, AtomsKnown, ReplacesItems, ClearFrom, SeamAccepts, DistinctAtoms, AnchoredAtoms, CaretIndex;
    hide Texts, Marked, InlineTextReplaced;
    var edit := ReplaceInlineTextStep(at, end, text);
    BoundaryIsOffset(Chars(c.runs), at.offset);
    BoundaryIsOffset(Chars(c.runs), end);
    if EditInline(store, c, edit).Ok? || SeamAccepts(c, at, end) {
      EditNeedsCaret(store, c, at, end, text);
      SeamIsClear(c, at, end);
      InheritedIsValid(store, c, CaretOf(at));
      var marks := InheritedMarks(store, c, CaretOf(at)).value;
      MixedAccepted(c, at, end, text, marks);
      if SeamAccepts(c, at, end) {
        SeamCaretStays(c, at.offset, at.ordinal, end, text, marks);
        InheritedIsValid(store, InlineTextReplaced(c, at.offset, at.ordinal, end, text, marks).value, CaretOf(at));
        MixedSplices(c, at, end, text, marks);
      }
    }
  }

  lemma EditNeedsCaret(store: Store, c: InlineContent, at: InlinePoint, end: nat, text: seq<byte>)
    requires EditInline(store, c, ReplaceInlineTextStep(at, end, text)).Ok? || SeamAccepts(c, at, end)
    ensures ValidCaret(c, CaretOf(at)) && at.offset <= end
  {
    hide Chars, InlineTextReplaced, InheritedMarks, Boundary;
    if EditInline(store, c, ReplaceInlineTextStep(at, end, text)).Ok? {
      InheritedNeedsCaret(store, c, CaretOf(at));
    }
  }

  lemma {:induction false} MixedAccepted(c: InlineContent, at: InlinePoint, end: nat, text: seq<byte>, marks: MarkSet)
    requires WfContent(c) && ValidCaret(c, CaretOf(at)) && at.offset <= end
    ensures InlineTextReplaced(c, at.offset, at.ordinal, end, text, marks).Ok? <==> SeamAccepts(c, at, end)
    ensures SeamAccepts(c, at, end) ==> RangeCheck(Chars(c.runs), at.offset, end).Pass?
  {
    hide Chars, CharsOk, CanonicalRuns, Boundary, SpliceChars, MovedAtoms, Group, FirstAt, CountAt, SeamAccepts;
    hide ClearFrom, DistinctAtoms, AnchoredAtoms;
    SeamIsClear(c, at, end);
    BoundaryIsOffset(Chars(c.runs), at.offset);
    BoundaryIsOffset(Chars(c.runs), end);
  }

  lemma {:induction false} MixedSplices(c: InlineContent, at: InlinePoint, end: nat, text: seq<byte>, marks: MarkSet)
    requires WfContent(c) && ValidUtf8(text) && marks.Valid() && at.offset <= end
    requires InlineTextReplaced(c, at.offset, at.ordinal, end, text, marks).Ok?
    ensures ReplacesItems(c, InlineTextReplaced(c, at.offset, at.ordinal, end, text, marks).value,
                    CaretIndex(c.atoms, CaretOf(at)), end - at.offset, Texts(Marked(text, marks)))
  {
    hide Chars, CharsOk, CanonicalRuns, ValidUtf8, InlineTextReplaced, Flatten, Texts, Marked, CaretIndex, Placed;
    ReplacementIsSplice(c, at.offset, at.ordinal, end, text, marks);
  }

  // One character's marks after adding or removing a mark.
  ghost predicate Remarked(before: MarkSet, after: MarkSet, change: MarkChange) {
    && after.Valid()
    && forall m :: m in after.marks <==>
         match change
         case Add(mark) => m == mark || (m in before.marks && m.Kind() != mark.Kind())
         case Remove(kind) => m in before.marks && m.Kind() != kind
  }

  lemma {:induction false} MarksAreChanged(ctx: Ctx, node: NodeId, start: nat, end: nat, change: MarkChange)
    requires CtxOk(ctx)
    ensures var r := ApplyMarkChange(ctx, node, start, end, change);
      && (r.Ok? <==> InRange(ctx, node, start, end))
      && (r.Ok? ==>
            && EditsOnly(ctx, r.value.ctx, node)
            && var c, next := ctx.store[node].content.inline, r.value.ctx.store[node].content.inline;
              && WfContent(next) && next.atoms == c.atoms && |Chars(next.runs)| == |Chars(c.runs)|
              && forall i :: 0 <= i < |Chars(c.runs)| ==>
                && Chars(next.runs)[i].b == Chars(c.runs)[i].b
                && if start <= i < end then Remarked(Chars(c.runs)[i].marks, Chars(next.runs)[i].marks, change)
                   else Chars(next.runs)[i].marks == Chars(c.runs)[i].marks)
  {
    hide IsTree, Validate, Chars, Boundary, MarksChanged, WfContent, SpansOf, MarkChangeInverse, Remarked;
    if IsText(ctx, node) {
      var c := ctx.store[node].content.inline;
      TreeKnowsAtoms(ctx.store, ctx.root, node);
      MarkEditMeans(c, start, end, change);
      if MarksChanged(c, start, end, change).Ok? {
        ValidateNewInline(ctx.store[node], MarksChanged(c, start, end, change).value);
      }
    }
  }

  lemma {:induction false} MarkEditMeans(c: InlineContent, start: nat, end: nat, change: MarkChange)
    requires WfContent(c)
    ensures MarksChanged(c, start, end, change).Ok? <==>
      start <= end && Boundary(Chars(c.runs), start) && Boundary(Chars(c.runs), end)
    ensures MarksChanged(c, start, end, change).Ok? ==>
      var next := MarksChanged(c, start, end, change).value;
      && WfContent(next) && next.atoms == c.atoms && |Chars(next.runs)| == |Chars(c.runs)|
      && forall i :: 0 <= i < |Chars(c.runs)| ==>
        && Chars(next.runs)[i].b == Chars(c.runs)[i].b
        && if start <= i < end then Remarked(Chars(c.runs)[i].marks, Chars(next.runs)[i].marks, change)
           else Chars(next.runs)[i].marks == Chars(c.runs)[i].marks
  {
    hide Chars, CanonicalRuns, ValidUtf8, Boundary, SortedAtoms, DistinctAtoms, AnchoredAtoms, Group;
    BoundaryIsOffset(Chars(c.runs), start);
    BoundaryIsOffset(Chars(c.runs), end);
    if MarksChanged(c, start, end, change).Ok? {
      ChangedIsWf(c, MarkOp(start, end, change));
    }
  }

  // ----- blocks in and out

  predicate HasPlace(ctx: Ctx, parent: NodeId, index: nat) {
    parent in ctx.store && ctx.store[parent].content.Children? && index <= |ctx.store[parent].content.children|
  }

  // The child list with one more child.
  function WithChild(ctx: Ctx, parent: NodeId, index: nat, child: NodeId): Node
    requires HasPlace(ctx, parent, index)
  {
    var children := ctx.store[parent].content.children;
    ctx.store[parent].(content := Children(children[..index] + [child] + children[index..]))
  }

  lemma {:induction false} NodeIsInserted(ctx: Ctx, parent: NodeId, index: nat, kind: NodeKind, attrs: NodeAttrs,
                                          content: NodeContent)
    requires CtxOk(ctx)
    ensures var r := ApplyInsertNode(ctx, parent, index, kind, attrs, content);
      var leaf := Node(ctx.nextId, kind, attrs, content);
      && (r.Ok? <==> HasPlace(ctx, parent, index) && CanName(ctx.nextId) && Validate(leaf).Pass?)
      && (r.Ok? ==>
            && ctx.nextId !in ctx.store
            && r.value.ctx == Ctx(ctx.root, ctx.store[ctx.nextId := leaf]
                                    [parent := WithChild(ctx, parent, index, ctx.nextId)], ctx.nextId + 1))
  {
    hide IsTree, Validate, NodeOk;
    if HasPlace(ctx, parent, index) {
      NodeInTree(ctx.store, ctx.root, parent);
      ValidateNewChildren(ctx.store[parent], InsertId(ctx.store[parent].content.children, index, ctx.nextId));
    }
  }

  // The child list without its `k`-th child.
  function WithoutChild(ctx: Ctx, parent: NodeId, k: nat): Node
    requires parent in ctx.store && ctx.store[parent].content.Children? && k < |ctx.store[parent].content.children|
  {
    var children := ctx.store[parent].content.children;
    ctx.store[parent].(content := Children(children[..k] + children[k + 1..]))
  }

  predicate IsChildAt(ctx: Ctx, parent: NodeId, k: nat, node: NodeId) {
    && parent in ctx.store && ctx.store[parent].content.Children?
    && k < |ctx.store[parent].content.children| && ctx.store[parent].content.children[k] == node
  }

  lemma {:induction false} NodeIsRemoved(ctx: Ctx, node: NodeId)
    requires CtxOk(ctx)
    ensures ApplyRemoveNode(ctx, node).Ok? <==> IsChild(ctx, node)
    ensures ApplyRemoveNode(ctx, node).Ok? ==> exists p, k :: RemovedAt(ctx, node, p, k)
  {
    hide IsTree, Validate, NodeOk, ChildEdge, ParentOf, WithoutId, Subtree, PositionOf, PayloadsOf;
    ParentCases(ctx, node);
    if p :| ChildEdge(ctx.store, p, node) {
      var children := ctx.store[p].content.children;
      ChildrenDistinct(ctx.store, ctx.root, p);
      InsertRemoved(children, node);
      ValidateNewChildren(ctx.store[p], WithoutId(children, node));
      assert IsChildAt(ctx, p, PositionOf(children, node).value, node);
      SubtreeIs(ctx.store, node);
      if ApplyRemoveNode(ctx, node).Ok? {
        assert RemovedAt(ctx, node, p, PositionOf(children, node).value);
      }
    }
  }

  lemma SubtreeIs(store: Store, x: NodeId)
    ensures Subtree(store, x) == set y | y in store && Reaches(store, x, y)
  {}

  // The node's one reference goes, and with it everything reachable from it.
  ghost predicate RemovedAt(ctx: Ctx, node: NodeId, parent: NodeId, k: nat) {
    && IsChildAt(ctx, parent, k, node) && ApplyRemoveNode(ctx, node).Ok?
    && ApplyRemoveNode(ctx, node).value.ctx
      == ctx.(store := ctx.store[parent := WithoutChild(ctx, parent, k)]
        - (set y | y in ctx.store && Reaches(ctx.store, node, y)))
  }

  // Pairwise different, unused identities that leave room for a next one.
  predicate CanReturn(ctx: Ctx, nodes: seq<Node>) {
    && (forall i, j :: 0 <= i < j < |nodes| ==> nodes[i].id != nodes[j].id)
    && (forall i :: 0 <= i < |nodes| ==> nodes[i].id !in ctx.store && CanName(nodes[i].id))
  }

  // The allocator moves just past the largest identity, never back.
  predicate RaisedTo(nextId: nat, nodes: seq<Node>, raised: nat) {
    && nextId <= raised && (forall i :: 0 <= i < |nodes| ==> nodes[i].id < raised)
    && (raised == nextId || exists i :: 0 <= i < |nodes| && nodes[i].id + 1 == raised)
  }

  lemma {:induction false} CheckPasses(nodes: seq<Node>, nextId: nat)
    ensures CheckRestored(nodes, nextId).Ok? <==>
      DistinctIds(nodes) && forall i :: 0 <= i < |nodes| ==> CanName(nodes[i].id)
  {
    if nodes != [] {
      var n := |nodes| - 1;
      CheckPasses(nodes[..n], nextId);
      assert forall i :: 0 <= i < n ==> nodes[..n][i] == nodes[i];
    }
  }

  lemma {:induction false} CheckRaises(nodes: seq<Node>, nextId: nat)
    requires CheckRestored(nodes, nextId).Ok?
    ensures RaisedTo(nextId, nodes, CheckRestored(nodes, nextId).value)
  {
    if nodes != [] {
      hide RaisedTo;
      var n := |nodes| - 1;
      CheckRaises(nodes[..n], nextId);
      RaiseOne(nextId, nodes, CheckRestored(nodes[..n], nextId).value);
    }
  }

  lemma RaiseOne(nextId: nat, nodes: seq<Node>, raised: nat)
    requires nodes != [] && RaisedTo(nextId, nodes[..|nodes| - 1], raised)
    ensures RaisedTo(nextId, nodes, Max(raised, nodes[|nodes| - 1].id + 1))
  {
    var n := |nodes| - 1;
    var front := nodes[..n];
    assert forall i :: 0 <= i < n ==> front[i] == nodes[i];
    if raised != nextId {
      var i :| 0 <= i < n && front[i].id + 1 == raised;
      assert nodes[i].id + 1 == raised;
    }
  }

  lemma {:induction false} SubtreeIsRestored(ctx: Ctx, parent: NodeId, index: nat, top: NodeId, nodes: seq<Node>)
    requires CtxOk(ctx)
    ensures var r := ApplyRestoreSubtree(ctx, parent, index, top, nodes);
      && (r.Ok? <==> HasPlace(ctx, parent, index) && CanReturn(ctx, nodes) && top in Ids(nodes))
      && (r.Ok? ==>
            && r.value.ctx.root == ctx.root && RaisedTo(ctx.nextId, nodes, r.value.ctx.nextId)
            && r.value.ctx.store.Keys == ctx.store.Keys + Ids(nodes)
            && (forall i :: 0 <= i < |nodes| ==>
                  nodes[i].id in r.value.ctx.store && r.value.ctx.store[nodes[i].id] == nodes[i])
            && (forall id :: id in ctx.store ==>
                  r.value.ctx.store[id] == if id == parent then WithChild(ctx, parent, index, top) else ctx.store[id]))
  {
    hide IsTree, Validate, NodeOk, CheckRestored, PutNodes, RaisedTo, DistinctIds, CanReturn;
    CheckPasses(nodes, ctx.nextId);
    ReturnMeans(ctx, nodes);
    if HasPlace(ctx, parent, index) {
      NodeInTree(ctx.store, ctx.root, parent);
      ValidateNewChildren(ctx.store[parent], InsertId(ctx.store[parent].content.children, index, top));
      if ApplyRestoreSubtree(ctx, parent, index, top, nodes).Ok? {
        PutNodesMeans(ctx.store, nodes);
        CheckRaises(nodes, ctx.nextId);
      }
    }
  }

  lemma ReturnMeans(ctx: Ctx, nodes: seq<Node>)
    ensures CanReturn(ctx, nodes) <==>
      DistinctIds(nodes) && forall i :: 0 <= i < |nodes| ==> nodes[i].id !in ctx.store && CanName(nodes[i].id)
  {}

  // ----- atoms in and out

  lemma {:induction false} AttachAccepted(c: InlineContent, p: Caret, atom: NodeId)
    requires WfContent(c) && atom !in Identities(c.atoms)
    ensures AtomAttached(c, p, atom).Ok? <==> ValidCaret(c, p)
  {
    hide Chars, CharsOk, CanonicalRuns, AnchoredAtoms, Boundary, FirstAt, CountAt;
    BoundaryIsOffset(Chars(c.runs), p.offset);
    if ValidCaret(c, p) {
      CaretCuts(c.atoms, p);
      assert forall i :: 0 <= i < |c.atoms| ==> Identities(c.atoms)[i] == c.atoms[i].atom;
    }
  }

  // A stored node's atoms are stored, so a fresh identity is none of them.
  lemma {:induction false} FreshIsUnplaced(ctx: Ctx, node: NodeId, id: NodeId)
    requires CtxOk(ctx) && IsText(ctx, node) && id !in ctx.store
    ensures id !in Identities(ctx.store[node].content.inline.atoms)
  {
    hide NodeOk, IsDepth, Distinct;
    var atoms := ctx.store[node].content.inline.atoms;
    assert id in Identities(atoms) ==> Edge(ctx.store, node, id);
  }

  // One node is stored and placed at a gap of another.
  ghost predicate PlacesNew(ctx: Ctx, ctx': Ctx, at: InlinePoint, payload: Node) {
    && IsText(ctx, at.node) && IsText(ctx', at.node) && payload.id !in ctx.store && payload.id != at.node
    && ctx'.root == ctx.root
    && ctx'.store == ctx.store[payload.id := payload]
                       [at.node := ctx.store[at.node].(content := ctx'.store[at.node].content)]
    && var c := ctx.store[at.node].content.inline;
      ReplacesItems(c, ctx'.store[at.node].content.inline, CaretIndex(c.atoms, CaretOf(at)), 0, [AtomItem(payload.id)])
  }

  lemma {:induction false} AtomIsInserted(ctx: Ctx, at: InlinePoint, atomKind: AtomKind, attrs: NodeAttrs,
                                          fallback: seq<byte>, marks: MarkSet)
    requires CtxOk(ctx)
    ensures var r := ApplyInsertInlineAtom(ctx, at, atomKind, attrs, fallback, marks);
      var payload := Node(ctx.nextId, InlineAtom(atomKind), attrs, AtomPayload(fallback, marks));
      && (r.Ok? <==> IsGap(ctx, at) && CanName(ctx.nextId) && Validate(payload).Pass?)
      && (r.Ok? ==> PlacesNew(ctx, r.value.ctx, at, payload) && r.value.ctx.nextId == ctx.nextId + 1)
  {
    hide IsTree, Validate, NodeOk, AtomAttached, ReplacesItems, CaretIndex, WfContent, ValidCaret;
    GapCheckMeans(ctx, at);
    var payload := Node(ctx.nextId, InlineAtom(atomKind), attrs, AtomPayload(fallback, marks));
    if IsText(ctx, at.node) {
      PlaceAccepted(ctx, at, payload, ctx.nextId);
    }
  }

  lemma GapCheckMeans(ctx: Ctx, at: InlinePoint)
    ensures GapCheck(ctx.store, at).Pass? <==> IsGap(ctx, at)
  {
    hide Chars, CountAt;
    if IsText(ctx, at.node) {
      BoundaryIsOffset(Chars(ctx.store[at.node].content.inline.runs), at.offset);
    }
  }

  lemma {:induction false} PlaceAccepted(ctx: Ctx, at: InlinePoint, payload: Node, nextId: nat)
    requires CtxOk(ctx) && IsText(ctx, at.node) && payload.id !in ctx.store
    ensures at.node != payload.id
    ensures var store := ctx.store[payload.id := payload];
      && (Attach(store, at, payload.id).Ok? <==> IsGap(ctx, at))
      && (Attach(store, at, payload.id).Ok? ==>
            PlacesNew(ctx, Ctx(ctx.root, Attach(store, at, payload.id).value, nextId), at, payload))
  {
    hide IsTree, Validate, NodeOk, AtomAttached, ReplacesItems, CaretIndex, WfContent, ValidCaret, Identities;
    var c := ctx.store[at.node].content.inline;
    TreeKnowsAtoms(ctx.store, ctx.root, at.node);
    FreshIsUnplaced(ctx, at.node, payload.id);
    AttachAccepted(c, CaretOf(at), payload.id);
    if AtomAttached(c, CaretOf(at), payload.id).Ok? {
      ValidateNewInline(ctx.store[at.node], AtomAttached(c, CaretOf(at), payload.id).value);
      AttachSplices(c, CaretOf(at), payload.id);
    }
  }

  lemma {:induction false} AtomIsRestored(ctx: Ctx, at: InlinePoint, payload: Node)
    requires CtxOk(ctx)
    ensures var r := ApplyRestoreInlineAtom(ctx, at, payload);
      && (r.Ok? <==> IsGap(ctx, at) && CanReturn(ctx, [payload])
                     && payload.kind.InlineAtom? && payload.content.AtomPayload?)
      && (r.Ok? ==> PlacesNew(ctx, r.value.ctx, at, payload)
                    && RaisedTo(ctx.nextId, [payload], r.value.ctx.nextId))
  {
    hide IsTree, Validate, NodeOk, ReplacesItems, CaretIndex, WfContent, ValidCaret, GapCheck, Attach;
    GapCheckMeans(ctx, at);
    if IsText(ctx, at.node) && payload.id !in ctx.store && CanName(payload.id) {
      PlaceAccepted(ctx, at, payload, RaiseNext(ctx.nextId, payload.id).value);
      assert [payload][0] == payload;
    }
    assert CanReturn(ctx, [payload]) <==> payload.id !in ctx.store && CanName(payload.id) by {
      assert [payload][0] == payload;
    }
  }

  // The atom and its one placement go.
  ghost predicate TakesOut(ctx: Ctx, ctx': Ctx, parent: NodeId, atom: NodeId) {
    && parent != atom && IsText(ctx, parent) && IsText(ctx', parent)
    && ctx' == ctx.(store :=
        ctx.store[parent := ctx.store[parent].(content := ctx'.store[parent].content)] - {atom})
    && var c, next := ctx.store[parent].content.inline, ctx'.store[parent].content.inline;
      exists i :: ItemGone(c, next, i, atom)
  }

  ghost predicate ItemGone(c: InlineContent, next: InlineContent, i: nat, atom: NodeId) {
    ReplacesItems(c, next, i, 1, []) && FlatOf(c)[i] == AtomItem(atom)
  }

  lemma {:induction false} ItemGoes(c: InlineContent, j: nat)
    requires WfContent(c) && j < |c.atoms|
    ensures exists i :: ItemGone(c, AtomDetached(c, j), i, c.atoms[j].atom)
  {
    hide ReplacesItems, CaretIndex, AtomDetached, Chars, CharsOk;
    DetachSplices(c, j);
    var at := CaretIndex(AtomDetached(c, j).atoms, GapBefore(c.atoms, j));
    assert ItemGone(c, AtomDetached(c, j), at, c.atoms[j].atom);
  }

  lemma {:induction false} AtomIsRemoved(ctx: Ctx, atom: NodeId)
    requires CtxOk(ctx)
    ensures var r := ApplyRemoveInlineAtom(ctx, atom);
      && (r.Ok? <==> exists p :: PlacesAtom(ctx.store, p, atom))
      && (r.Ok? ==> exists p :: PlacesAtom(ctx.store, p, atom) && TakesOut(ctx, r.value.ctx, p, atom))
  {
    hide IsTree, Validate, NodeOk, ReplacesItems, CaretIndex, WfContent, PlacesAtom, AtomDetached, Identities;
    hide PositionOf;
    hide AtomParentOf, CountAt, ItemGone;
    if ApplyRemoveInlineAtom(ctx, atom).Ok? {
      RemovedAtomFacts(ctx, atom);
      var p := AtomParentOf(ctx.store, atom).value;
      AtomParentPlaces(ctx.store, atom);
      var c := ctx.store[p].content.inline;
      var j := PositionOf(Identities(c.atoms), atom).value;
      ItemGoes(c, j);
      assert TakesOut(ctx, ApplyRemoveInlineAtom(ctx, atom).value.ctx, p, atom);
    }
    if p :| PlacesAtom(ctx.store, p, atom) {
      AtomParentIs(ctx.store, ctx.root, p, atom);
      RemovalAccepted(ctx, p, atom);
    }
  }

  lemma {:induction false} RemovalAccepted(ctx: Ctx, p: NodeId, atom: NodeId)
    requires CtxOk(ctx) && PlacesAtom(ctx.store, p, atom) && AtomParentOf(ctx.store, atom) == Ok(p)
    requires atom in ctx.store && ctx.store[atom].kind.InlineAtom?
    ensures ApplyRemoveInlineAtom(ctx, atom).Ok?
  {
    hide IsTree, Validate, NodeOk, WfContent, PositionOf, AtomParentOf, CountAt, AtomDetached;
    TreeKnowsAtoms(ctx.store, ctx.root, p);
    var c := ctx.store[p].content.inline;
    ValidateNewInline(ctx.store[p], AtomDetached(c, PositionOf(Identities(c.atoms), atom).value));
  }

  // ----- splits and joins

  // The items before the gap stay, those after it go to a new next sibling.
  ghost predicate SplitsOff(ctx: Ctx, ctx': Ctx, at: InlinePoint, parent: NodeId, k: nat, tail: Node) {
    && IsText(ctx, at.node) && IsText(ctx', at.node) && IsChildAt(ctx, parent, k, at.node) && parent != at.node
    && tail.id !in ctx.store && tail.content.Inline? && ctx'.root == ctx.root
    && ctx'.store == ctx.store[tail.id := tail]
                       [at.node := ctx.store[at.node].(content := ctx'.store[at.node].content)]
                       [parent := WithChild(ctx, parent, k + 1, tail.id)]
    && Cuts(ctx.store[at.node].content.inline, CaretOf(at), ctx'.store[at.node].content.inline, tail.content.inline)
  }

  ghost predicate Cuts(c: InlineContent, p: Caret, head: InlineContent, tail: InlineContent) {
    && WfContent(c) && WfContent(head) && WfContent(tail)
    && Placed(Chars(c.runs), c.atoms) && Placed(Chars(head.runs), head.atoms) && Placed(Chars(tail.runs), tail.atoms)
    && CaretIndex(c.atoms, p) <= |FlatOf(c)|
    && FlatOf(head) == FlatOf(c)[..CaretIndex(c.atoms, p)] && FlatOf(tail) == FlatOf(c)[CaretIndex(c.atoms, p)..]
  }

  lemma {:induction false} SplitCuts(c: InlineContent, p: Caret)
    requires WfContent(c)
    ensures SplitAt(c, p).Ok? <==> ValidCaret(c, p)
    ensures SplitAt(c, p).Ok? ==> Cuts(c, p, SplitAt(c, p).value.0, SplitAt(c, p).value.1)
  {
    hide Chars, CharsOk, CanonicalRuns, AnchoredAtoms, DistinctAtoms, Boundary, FirstAt, CountAt, Flatten;
    BoundaryIsOffset(Chars(c.runs), p.offset);
    if ValidCaret(c, p) {
      CaretCuts(c.atoms, p);
      SplitIsCut(c, p);
      HalvesWf(c, p);
    }
  }

  // The second half, with the kind and attributes of the node it comes from.
  function FreshTail(ctx: Ctx, node: NodeId, half: InlineContent): Node
    requires node in ctx.store
  {
    Node(ctx.nextId, ctx.store[node].kind, ctx.store[node].attrs, Inline(half))
  }

  lemma {:induction false} TailIsGrown(ctx: Ctx, node: NodeId, half: InlineContent)
    requires CtxOk(ctx) && IsText(ctx, node)
    ensures var r := GrowTail(ctx, node, half, None); var tail := FreshTail(ctx, node, half);
      && (r.Ok? <==> CanName(ctx.nextId)) && ctx.nextId !in ctx.store
      && (r.Ok? ==> r.value == Ctx(ctx.root, ctx.store[ctx.nextId := tail], ctx.nextId + 1))
  {
    hide IsTree, Validate, NodeOk;
    NodeInTree(ctx.store, ctx.root, node);
    SameKindValid(ctx.store[node], ctx.nextId, half);
  }

  // Validity of an inline node depends on its kind and attributes only.
  lemma SameKindValid(node: Node, id: NodeId, half: InlineContent)
    requires Validate(node).Pass? && node.content.Inline?
    ensures Validate(Node(id, node.kind, node.attrs, Inline(half))).Pass?
  {}

  lemma {:induction false} PayloadReturns(ctx: Ctx, node: NodeId, half: InlineContent, payload: Node)
    requires node in ctx.store
    ensures var r := GrowTail(ctx, node, half, Some(payload));
      && (r.Ok? <==> payload.content == Inline(half) && CanReturn(ctx, [payload]))
      && (r.Ok? ==> && r.value.root == ctx.root && r.value.store == ctx.store[payload.id := payload]
                    && RaisedTo(ctx.nextId, [payload], r.value.nextId))
  {
    assert [payload][0] == payload;
  }

  // What a split makes of a grown context, whichever way the tail came.
  lemma {:induction false} SplitMeans(ctx: Ctx, at: InlinePoint, restored: Option<Node>, mixed: bool)
    requires CtxOk(ctx) && IsText(ctx, at.node)
    ensures var r, halves := SplitInline(ctx, at, restored, mixed), SplitAt(ctx.store[at.node].content.inline,
        CaretOf(at));
      && (r.Ok? <==> halves.Ok? && IsChild(ctx, at.node) && GrowTail(ctx, at.node, halves.value.1, restored).Ok?)
      && (r.Ok? ==>
            && r.value.ctx.nextId == GrowTail(ctx, at.node, halves.value.1, restored).value.nextId
            && var tail := if restored.Some? then restored.value else FreshTail(ctx, at.node, halves.value.1);
              exists p, k :: SplitsOff(ctx, r.value.ctx, at, p, k, tail))
  {
    hide IsTree, Validate, NodeOk, WfContent, SplitAt, ParentOf, PositionOf, GrowTail, Cuts, CanReturn, RaisedTo;
    hide ChildEdge, InsertId, ValidCaret;
    var c := ctx.store[at.node].content.inline;
    TreeKnowsAtoms(ctx.store, ctx.root, at.node);
    SplitCuts(c, CaretOf(at));
    ParentCases(ctx, at.node);
    if SplitAt(c, CaretOf(at)).Ok? && IsChild(ctx, at.node) {
      var halves := SplitAt(c, CaretOf(at)).value;
      var p :| ChildEdge(ctx.store, p, at.node);
      TailIsGrown(ctx, at.node, halves.1);
      if restored.Some? {
        PayloadReturns(ctx, at.node, halves.1, restored.value);
      }
      SplitAccepted(ctx, at, restored, mixed, p, halves);
    }
  }

  lemma {:induction false} SplitAccepted(ctx: Ctx, at: InlinePoint, restored: Option<Node>, mixed: bool, p: NodeId,
                                         halves: (InlineContent, InlineContent))
    requires CtxOk(ctx) && IsText(ctx, at.node) && ChildEdge(ctx.store, p, at.node)
    requires SplitAt(ctx.store[at.node].content.inline, CaretOf(at)) == Ok(halves)
    requires Cuts(ctx.store[at.node].content.inline, CaretOf(at), halves.0, halves.1)
    ensures SplitInline(ctx, at, restored, mixed).Ok? <==> GrowTail(ctx, at.node, halves.1, restored).Ok?
    ensures SplitInline(ctx, at, restored, mixed).Ok? ==>
      var ctx' := SplitInline(ctx, at, restored, mixed).value.ctx;
      var tail := if restored.Some? then restored.value else FreshTail(ctx, at.node, halves.1);
      && ctx'.nextId == GrowTail(ctx, at.node, halves.1, restored).value.nextId
      && exists k :: SplitsOff(ctx, ctx', at, p, k, tail)
  {
    hide IsTree, Validate, NodeOk, WfContent, SplitAt, ParentOf, PositionOf, GrowTail, Cuts, CanReturn, RaisedTo;
    hide ChildEdge, ValidCaret;
    ParentCases(ctx, at.node);
    NodeInTree(ctx.store, ctx.root, at.node);
    ValidateNewInline(ctx.store[at.node], halves.0);
    var children := ctx.store[p].content.children;
    var k := PositionOf(children, at.node).value;
    ValidateNewChildren(ctx.store[p], InsertId(children, k + 1, 0));
    if GrowTail(ctx, at.node, halves.1, restored).Ok? {
      GrownStore(ctx, at.node, halves.1, restored);
    }
    if SplitInline(ctx, at, restored, mixed).Ok? {
      var tail := if restored.Some? then restored.value else FreshTail(ctx, at.node, halves.1);
      assert SplitsOff(ctx, SplitInline(ctx, at, restored, mixed).value.ctx, at, p, k, tail);
    }
  }

  lemma {:induction false} GrownStore(ctx: Ctx, node: NodeId, half: InlineContent, restored: Option<Node>)
    requires CtxOk(ctx) && IsText(ctx, node) && GrowTail(ctx, node, half, restored).Ok?
    ensures var tail := if restored.Some? then restored.value else FreshTail(ctx, node, half);
      && tail.id !in ctx.store && tail.content == Inline(half)
      && GrowTail(ctx, node, half, restored).value.root == ctx.root
      && GrowTail(ctx, node, half, restored).value.store == ctx.store[tail.id := tail]
  {
    hide IsTree, Validate, NodeOk;
    TailIsGrown(ctx, node, half);
    if restored.Some? {
      PayloadReturns(ctx, node, half, restored.value);
    }
  }

  // A mixed split: the tail is new, with the node's own kind and attributes.
  lemma {:induction false} InlineNodeIsSplit(ctx: Ctx, at: InlinePoint)
    requires CtxOk(ctx)
    ensures var r := SplitInline(ctx, at, None, true);
      && (r.Ok? <==> IsGap(ctx, at) && IsChild(ctx, at.node) && CanName(ctx.nextId))
      && (r.Ok? ==> && r.value.ctx.nextId == ctx.nextId + 1 && at.node in ctx.store
                    && exists p, k, half :: SplitsOff(ctx, r.value.ctx, at, p, k, FreshTail(ctx, at.node, half)))
  {
    FreshSplit(ctx, at, true);
  }

  lemma {:induction false} FreshSplit(ctx: Ctx, at: InlinePoint, mixed: bool)
    requires CtxOk(ctx)
    ensures var r := SplitInline(ctx, at, None, mixed);
      && (r.Ok? <==> IsGap(ctx, at) && IsChild(ctx, at.node) && CanName(ctx.nextId))
      && (r.Ok? ==> && r.value.ctx.nextId == ctx.nextId + 1 && at.node in ctx.store
                    && exists p, k, half :: SplitsOff(ctx, r.value.ctx, at, p, k, FreshTail(ctx, at.node, half)))
  {
    hide CtxOk, SplitInline, SplitsOff, SplitAt, ValidCaret, GrowTail, WfContent;
    if IsText(ctx, at.node) {
      var c := ctx.store[at.node].content.inline;
      SplitMeans(ctx, at, None, mixed);
      assert WfContent(c) by { TextIsWf(ctx, at.node); }
      SplitCuts(c, CaretOf(at));
      if SplitAt(c, CaretOf(at)).Ok? {
        TailIsGrown(ctx, at.node, SplitAt(c, CaretOf(at)).value.1);
      }
    } else {
      SplitNeedsText(ctx, at, None, mixed);
    }
  }

  lemma TextIsWf(ctx: Ctx, node: NodeId)
    requires CtxOk(ctx) && IsText(ctx, node)
    ensures WfContent(ctx.store[node].content.inline)
  {
    hide IsTree, WfContent, Validate;
    TreeKnowsAtoms(ctx.store, ctx.root, node);
  }

  lemma SplitNeedsText(ctx: Ctx, at: InlinePoint, restored: Option<Node>, mixed: bool)
    requires !IsText(ctx, at.node)
    ensures SplitInline(ctx, at, restored, mixed).Err?
  {}

  // A text-only split also refuses content with atoms.
  lemma {:induction false} NodeIsSplit(ctx: Ctx, node: NodeId, offset: nat)
    requires CtxOk(ctx)
    ensures var r, at := ApplySplitNode(ctx, node, offset), InlinePoint(node, offset, 0, BeforeGlyph);
      && (r.Ok? <==> InRange(ctx, node, offset, offset) && ctx.store[node].content.inline.atoms == []
                     && IsChild(ctx, node) && CanName(ctx.nextId))
      && (r.Ok? ==> && r.value.ctx.nextId == ctx.nextId + 1 && node in ctx.store
                    && exists p, k, half :: SplitsOff(ctx, r.value.ctx, at, p, k, FreshTail(ctx, node, half)))
  {
    hide CtxOk, SplitInline, SplitsOff, Chars, WfContent, Boundary;
    FreshSplit(ctx, InlinePoint(node, offset, 0, BeforeGlyph), false);
    if IsText(ctx, node) {
      BoundaryIsOffset(Chars(ctx.store[node].content.inline.runs), offset);
    }
  }

  // A joined node comes back only with exactly the content after the gap.
  lemma {:induction false} JoinedNodeIsRestored(ctx: Ctx, at: InlinePoint, payload: Node)
    requires CtxOk(ctx) && NodeOk(payload)
    ensures var r := ApplyRestoreJoinedNode(ctx, at, payload);
      && (r.Ok? <==> IsGap(ctx, at) && IsChild(ctx, at.node) && CanReturn(ctx, [payload]) && payload.content.Inline?
                     && HoldsRest(ctx.store[at.node].content.inline, CaretOf(at), payload.content.inline))
      && (r.Ok? ==> RaisedTo(ctx.nextId, [payload], r.value.ctx.nextId)
                    && exists p, k :: SplitsOff(ctx, r.value.ctx, at, p, k, payload))
  {
    hide CtxOk, SplitInline, SplitsOff, SplitAt, ValidCaret, GrowTail, WfContent, RaisedTo, HoldsRest, Validate;
    if IsText(ctx, at.node) {
      var c := ctx.store[at.node].content.inline;
      var mixed := c.atoms != [];
      SplitMeans(ctx, at, Some(payload), mixed);
      TextIsWf(ctx, at.node);
      SplitCuts(c, CaretOf(at));
      if SplitAt(c, CaretOf(at)).Ok? && payload.content.Inline? {
        PayloadReturns(ctx, at.node, SplitAt(c, CaretOf(at)).value.1, payload);
        RestIsTail(c, CaretOf(at), payload.content.inline);
      }
    }
    assert CanReturn(ctx, [payload]) <==> payload.id !in ctx.store && CanName(payload.id) by {
      assert [payload][0] == payload;
    }
  }

  ghost predicate HoldsRest(c: InlineContent, p: Caret, tail: InlineContent) {
    && Placed(Chars(c.runs), c.atoms) && Placed(Chars(tail.runs), tail.atoms)
    && CaretIndex(c.atoms, p) <= |FlatOf(c)| && FlatOf(tail) == FlatOf(c)[CaretIndex(c.atoms, p)..]
  }

  lemma {:induction false} RestIsTail(c: InlineContent, p: Caret, tail: InlineContent)
    requires WfContent(c) && WfContent(tail) && SplitAt(c, p).Ok?
    ensures tail == SplitAt(c, p).value.1 <==> HoldsRest(c, p, tail)
  {
    hide Chars, WfContent, SplitAt, Flatten, CaretIndex, Placed;
    SplitCuts(c, p);
    if HoldsRest(c, p, tail) {
      FlattenInjective(tail, SplitAt(c, p).value.1);
    }
  }

  // The second node's items follow the first's, and the second node goes.
  ghost predicate JoinsInto(ctx: Ctx, ctx': Ctx, parent: NodeId, k: nat, first: NodeId, second: NodeId) {
    && IsText(ctx, first) && IsText(ctx, second) && IsText(ctx', first) && parent != first && parent != second
    && first != second && IsChildAt(ctx, parent, k, first) && IsChildAt(ctx, parent, k + 1, second)
    && ctx' == ctx.(store := ctx.store[first := ctx.store[first].(content := ctx'.store[first].content)]
                               [parent := WithoutChild(ctx, parent, k + 1)] - {second})
    && Concatenates(ctx.store[first].content.inline, ctx.store[second].content.inline,
                    ctx'.store[first].content.inline)
  }

  ghost predicate Concatenates(a: InlineContent, b: InlineContent, c: InlineContent) {
    && WfContent(c) && Placed(Chars(a.runs), a.atoms) && Placed(Chars(b.runs), b.atoms)
    && Placed(Chars(c.runs), c.atoms) && FlatOf(c) == FlatOf(a) + FlatOf(b)
  }

  lemma {:induction false} NodesAreJoined(ctx: Ctx, first: NodeId, second: NodeId)
    requires CtxOk(ctx)
    ensures var r := ApplyJoinNodes(ctx, first, second);
      && (r.Ok? <==> IsText(ctx, first) && IsText(ctx, second) && exists p :: NextSibling(ctx, p, first, second))
      && (r.Ok? ==> exists p, k :: JoinsInto(ctx, r.value.ctx, p, k, first, second))
  {
    hide CtxOk, ApplyJoinNodes, JoinsInto, NextSibling, IsText;
    if ApplyJoinNodes(ctx, first, second).Ok? {
      JoinDoes(ctx, first, second);
    }
    if p :| IsText(ctx, first) && IsText(ctx, second) && NextSibling(ctx, p, first, second) {
      JoinAccepted(ctx, p, first, second);
    }
  }

  lemma {:induction false} JoinDoes(ctx: Ctx, first: NodeId, second: NodeId)
    requires CtxOk(ctx) && ApplyJoinNodes(ctx, first, second).Ok?
    ensures IsText(ctx, first) && IsText(ctx, second)
    ensures exists p :: NextSibling(ctx, p, first, second)
    ensures exists p, k :: JoinsInto(ctx, ApplyJoinNodes(ctx, first, second).value.ctx, p, k, first, second)
  {
    hide CtxOk, ApplyJoinNodes, ParentOf, PositionOf, Joined, WfContent, ChildEdge, JoinGap, Concatenates, Validate;
    hide Distinct;
    JoinFacts(ctx, first, second);
    JoinResult(ctx, first, second);
    var p := ParentOf(ctx.store, first).value;
    var k := PositionOf(ctx.store[p].content.children, first).value;
    var a, b := ctx.store[first].content.inline, ctx.store[second].content.inline;
    PositionHolds(ctx.store[p].content.children, first);
    JoinIsConcatenation(a, b);
    assert JoinsInto(ctx, ApplyJoinNodes(ctx, first, second).value.ctx, p, k, first, second);
    assert NextSibling(ctx, p, first, second);
  }

  lemma JoinIsConcatenation(a: InlineContent, b: InlineContent)
    requires WfContent(a) && WfContent(b) && Joined(a, b).Ok?
    ensures Concatenates(a, b, Joined(a, b).value)
  {
    hide WfContent, Joined, Placed, FlatOf;
    JoinConcatenates(a, b);
  }

  lemma {:induction false} JoinAccepted(ctx: Ctx, p: NodeId, first: NodeId, second: NodeId)
    requires CtxOk(ctx) && IsText(ctx, first) && IsText(ctx, second) && NextSibling(ctx, p, first, second)
    ensures ApplyJoinNodes(ctx, first, second).Ok?
  {
    hide IsTree, Validate, NodeOk, ParentOf, PositionOf, WfContent, JoinGap;
    var children := ctx.store[p].content.children;
    var i :| 0 <= i < |children| - 1 && children[i] == first && children[i + 1] == second;
    assert ChildEdge(ctx.store, p, first);
    ParentCases(ctx, first);
    ChildrenDistinct(ctx.store, ctx.root, p);
    PositionIs(children, first, i);
    AtomsApart(ctx, first, second);
    NodeInTree(ctx.store, ctx.root, first);
    ValidateNewInline(ctx.store[first],
      Joined(ctx.store[first].content.inline, ctx.store[second].content.inline).value);
    ValidateNewChildren(ctx.store[p], children[..i + 1] + children[i + 2..]);
  }

  // Two nodes of a tree place different atoms.
  lemma {:induction false} AtomsApart(ctx: Ctx, first: NodeId, second: NodeId)
    requires CtxOk(ctx) && IsText(ctx, first) && IsText(ctx, second) && first != second
    ensures Joined(ctx.store[first].content.inline, ctx.store[second].content.inline).Ok?
  {
    hide IsDepth, Validate, Chars, CharsOk, CanonicalRuns, Distinct, AnchoredAtoms;
    var a, b := ctx.store[first].content.inline, ctx.store[second].content.inline;
    assert NodeOk(ctx.store[first]) && NodeOk(ctx.store[second]);
    forall i, j | 0 <= i < |a.atoms| && 0 <= j < |b.atoms|
      ensures a.atoms[i].atom != b.atoms[j].atom
    {
      assert References(ctx.store[first])[i] == a.atoms[i].atom && References(ctx.store[second])[j] == b.atoms[j].atom;
      assert Edge(ctx.store, first, a.atoms[i].atom) && Edge(ctx.store, second, b.atoms[j].atom);
    }
  }

  // ----- any step

  // What a step needs of the state, said without applying it.
  ghost predicate Accepts(ctx: Ctx, step: TransactionStep) {
    match step
    case ReplaceTextStep(node, start, end, _) =>
      InRange(ctx, node, start, end) && ClearOfAtoms(ctx, node, start, end)
    case ReplaceInlineTextStep(at, end, _) =>
      IsText(ctx, at.node) && SeamAccepts(ctx.store[at.node].content.inline, at, end)
    case AddMarkStep(node, start, end, _) => InRange(ctx, node, start, end)
    case RemoveMarkStep(node, start, end, _) => InRange(ctx, node, start, end)
    case SetInlineAtomMarksStep(atom, _) => atom in ctx.store && ctx.store[atom].content.AtomPayload?
    case SetNodeAttrsStep(node, attrs) =>
      node in ctx.store && Validate(ctx.store[node].(attrs := attrs)).Pass?
    case SetNodeKindStep(node, kind) =>
      && node in ctx.store && node != ctx.root && Validate(ctx.store[node].(kind := kind)).Pass?
      && exists p :: ChildEdge(ctx.store, p, node) && AllowsChild(ctx.store[p].kind, kind)
    case InsertNodeStep(parent, index, kind, attrs, content) =>
      && HasPlace(ctx, parent, index) && CanName(ctx.nextId)
      && Validate(Node(ctx.nextId, kind, attrs, content)).Pass?
    case RemoveNodeStep(node) => IsChild(ctx, node)
    case RestoreSubtreeStep(parent, index, top, nodes) =>
      HasPlace(ctx, parent, index) && CanReturn(ctx, nodes) && top in Ids(nodes)
    case InsertInlineAtomStep(at, kind, attrs, fallback, marks) =>
      && IsGap(ctx, at) && CanName(ctx.nextId)
      && Validate(Node(ctx.nextId, InlineAtom(kind), attrs, AtomPayload(fallback, marks))).Pass?
    case RemoveInlineAtomStep(atom) => exists p :: PlacesAtom(ctx.store, p, atom)
    case RestoreInlineAtomStep(at, payload) =>
      && IsGap(ctx, at) && CanReturn(ctx, [payload])
      && payload.kind.InlineAtom? && payload.content.AtomPayload?
    case SplitNodeStep(node, offset) =>
      && InRange(ctx, node, offset, offset) && ctx.store[node].content.inline.atoms == []
      && IsChild(ctx, node) && CanName(ctx.nextId)
    case SplitInlineNodeStep(at) => IsGap(ctx, at) && IsChild(ctx, at.node) && CanName(ctx.nextId)
    case RestoreJoinedNodeStep(at, payload) =>
      && IsGap(ctx, at) && IsChild(ctx, at.node) && CanReturn(ctx, [payload]) && payload.content.Inline?
      && HoldsRest(ctx.store[at.node].content.inline, CaretOf(at), payload.content.inline)
    case JoinNodesStep(first, second) =>
      IsText(ctx, first) && IsText(ctx, second) && exists p :: NextSibling(ctx, p, first, second)
  }

  lemma {:induction false} StepAccepted(ctx: Ctx, step: TransactionStep)
    requires CtxOk(ctx) && WellTyped(step)
    ensures ApplyStep(ctx, step).Ok? <==> Accepts(ctx, step)
  {
    hide CtxOk, ApplyReplaceText, ApplyReplaceInlineText, ApplyMarkChange, ApplyInsertInlineAtom, CanReturn, Validate;
    hide ApplyRemoveInlineAtom, ApplySetInlineAtomMarks, ApplyRestoreInlineAtom, ApplyInsertNode, ApplyRestoreSubtree;
    hide ApplyRemoveNode, ApplySetNodeAttrs, ApplySetNodeKind, ApplySplitNode, SplitInline, ApplyRestoreJoinedNode;
    hide ApplyJoinNodes, ValidUtf8, NodeOk, ReplacesItems, Cuts, Concatenates, ItemGone, RaisedTo, HoldsRest, Ids;
    hide InRange, SeamAccepts, ClearOfAtoms, IsGap, IsChild, WfContent, Remarked, Chars, CaretIndex, TextMarks;
    hide NextSibling, PlacesAtom, ChildEdge, AllowsChild, Marked, Texts, IsText, HasPlace, CanName, SplitsOff;
    hide JoinsInto, TakesOut, PlacesNew, EditsOnly, RemovedAt;
    match step {
      case ReplaceTextStep(node, start, end, text) => TextIsReplaced(ctx, node, start, end, text);
      case ReplaceInlineTextStep(at, end, text) => InlineTextIsReplaced(ctx, at, end, text);
      case InsertInlineAtomStep(at, kind, attrs, fallback, marks) =>
        AtomIsInserted(ctx, at, kind, attrs, fallback, marks);
      case RemoveInlineAtomStep(atom) => AtomIsRemoved(ctx, atom);
      case SetInlineAtomMarksStep(atom, marks) => AtomMarksAreSet(ctx, atom, marks);
      case RestoreInlineAtomStep(at, payload) => AtomIsRestored(ctx, at, payload);
      case InsertNodeStep(parent, index, kind, attrs, content) =>
        NodeIsInserted(ctx, parent, index, kind, attrs, content);
      case RestoreSubtreeStep(parent, index, root, nodes) => SubtreeIsRestored(ctx, parent, index, root, nodes);
      case RemoveNodeStep(node) => NodeIsRemoved(ctx, node);
      case SetNodeAttrsStep(node, attrs) => AttrsAreSet(ctx, node, attrs);
      case SetNodeKindStep(node, kind) => KindIsSet(ctx, node, kind);
      case AddMarkStep(node, start, end, mark) => MarksAreChanged(ctx, node, start, end, Add(mark));
      case RemoveMarkStep(node, start, end, kind) => MarksAreChanged(ctx, node, start, end, Remove(kind));
      case SplitNodeStep(node, offset) => NodeIsSplit(ctx, node, offset);
      case SplitInlineNodeStep(at) => InlineNodeIsSplit(ctx, at);
      case RestoreJoinedNodeStep(at, payload) => JoinedNodeIsRestored(ctx, at, payload);
      case JoinNodesStep(first, second) => NodesAreJoined(ctx, first, second);
    }
  }
}
