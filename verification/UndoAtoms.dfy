// Undo of inline-atom steps and of node splits and joins.
module UndoAtoms {
  import opened Wrappers
  import opened Text
  import opened Marks
  import opened Content
  import opened InlineEdit
  import opened Flat
  import opened InlineLaws
  import opened Nodes
  import opened Mapping
  import opened Steps
  import opened Structure
  import opened Tree
  import opened Apply
  import opened Undo
  import opened UndoTree

  // ----- atoms

  lemma {:induction false} AttachedPosition(c: InlineContent, p: Caret, atom: NodeId)
    requires WfContent(c) && AtomAttached(c, p, atom).Ok?
    ensures var r := AtomAttached(c, p, atom).value;
      && PositionOf(Identities(r.atoms), atom) == Some(CaretCut(c.atoms, p))
      && CaretCut(c.atoms, p) < |r.atoms|
      && AtomDetached(r, CaretCut(c.atoms, p)) == c
      && atom in Identities(r.atoms)
  {
    hide Chars, CharsOk, Boundary, FirstAt, CountAt, CanonicalRuns, PositionOf;
    DetachUndoesAttach(c, p, atom);
    var r := AtomAttached(c, p, atom).value;
    var cut := CaretCut(c.atoms, p);
    var ids := Identities(r.atoms);
    assert ids[cut] == atom;
    assert forall i :: 0 <= i < cut ==> ids[..cut][i] == r.atoms[i].atom;
    PositionIs(ids, atom, cut);
  }

  // Taking a freshly attached atom out again restores the store.
  lemma {:induction false} RemoveAttached(ctx: Ctx, at: InlinePoint, payload: Node, from: Ctx)
    requires CtxOk(ctx) && payload.id !in ctx.store && payload.kind.InlineAtom? && payload.content.AtomPayload?
    requires at.node in ctx.store && ctx.store[at.node].content.Inline?
    requires AtomAttached(ctx.store[at.node].content.inline, CaretOf(at), payload.id).Ok?
    requires from.root == ctx.root && IsTree(from.store, from.root)
    requires from.store == ctx.store[payload.id := payload][at.node := ctx.store[at.node].(content :=
      Inline(AtomAttached(ctx.store[at.node].content.inline, CaretOf(at), payload.id).value))]
    ensures ApplyRemoveInlineAtom(from, payload.id).Ok?
    ensures ApplyRemoveInlineAtom(from, payload.id).value.ctx == Ctx(ctx.root, ctx.store, from.nextId)
  {
    hide IsTree, NodeOk, Validate, PositionOf, AtomParentOf, AtomAttached, AtomDetached, WfContent, Identities;
    var id, n := payload.id, at.node;
    NodeInTree(ctx.store, ctx.root, n);
    TreeKnowsAtoms(ctx.store, ctx.root, n);
    var c := ctx.store[n].content.inline;
    var next := AtomAttached(c, CaretOf(at), id).value;
    AttachedPosition(c, CaretOf(at), id);
    assert PlacesAtom(from.store, n, id);
    AtomParentIs(from.store, from.root, n, id);
    ValidateNewInline(ctx.store[n], c);
    assert ctx.store[n].(content := Inline(c)) == ctx.store[n];
    ValidateNewInline(ctx.store[n], next);
    ValidateNewInline(from.store[n], c);
    assert from.store[n := ctx.store[n]] - {id} == ctx.store;
  }

  lemma {:induction false} InsertedAtomFacts(ctx: Ctx, at: InlinePoint, atomKind: AtomKind, attrs: NodeAttrs,
                                             fallback: seq<byte>, marks: MarkSet)
    requires CtxOk(ctx) && ApplyInsertInlineAtom(ctx, at, atomKind, attrs, fallback, marks).Ok?
    ensures var post := ApplyInsertInlineAtom(ctx, at, atomKind, attrs, fallback, marks).value.ctx;
      var id := ctx.nextId;
      && id !in ctx.store && at.node in ctx.store && ctx.store[at.node].content.Inline?
      && AtomAttached(ctx.store[at.node].content.inline, CaretOf(at), id).Ok?
      && post.root == ctx.root && post.nextId == id + 1
      && Validate(Node(id, InlineAtom(atomKind), attrs, AtomPayload(fallback, marks))).Pass?
      && post.store == ctx.store[id := Node(id, InlineAtom(atomKind), attrs, AtomPayload(fallback, marks))]
           [at.node := ctx.store[at.node].(content := Inline(AtomAttached(ctx.store[at.node].content.inline,
               CaretOf(at), id).value))]
  {
    hide NodeOk, IsDepth, Validate, AtomAttached, Chars, CountAt;
    NodeInTree(ctx.store, ctx.root, at.node);
  }

  lemma {:induction false} UndoInsertAtom(ctx: Ctx, at: InlinePoint, atomKind: AtomKind, attrs: NodeAttrs,
                                          fallback: seq<byte>, marks: MarkSet)
    requires CtxOk(ctx) && ApplyInsertInlineAtom(ctx, at, atomKind, attrs, fallback, marks).Ok?
    requires CtxOk(ApplyInsertInlineAtom(ctx, at, atomKind, attrs, fallback, marks).value.ctx)
    ensures var applied := ApplyInsertInlineAtom(ctx, at, atomKind, attrs, fallback, marks).value;
      Undoes(ctx, applied.ctx, applied.inverse)
  {
    hide IsTree, NodeOk, Run, Validate, AtomAttached, ApplyRemoveInlineAtom, GapCheck, Attach;
    InsertedAtomFacts(ctx, at, atomKind, attrs, fallback, marks);
    var applied := ApplyInsertInlineAtom(ctx, at, atomKind, attrs, fallback, marks).value;
    var payload := Node(ctx.nextId, InlineAtom(atomKind), attrs, AtomPayload(fallback, marks));
    forall nextId | applied.ctx.nextId <= nextId < U64_LIMIT
      ensures UndoneFrom(ctx, applied.ctx.(nextId := nextId), applied.inverse)
    {
      var from := applied.ctx.(nextId := nextId);
      RemoveAttached(ctx, at, payload, from);
      UndoneByOne(ctx, from, RemoveInlineAtomStep(ctx.nextId));
    }
  }

  lemma {:induction false} RestoredAtomFacts(ctx: Ctx, at: InlinePoint, payload: Node)
    requires CtxOk(ctx) && ApplyRestoreInlineAtom(ctx, at, payload).Ok?
    ensures var post := ApplyRestoreInlineAtom(ctx, at, payload).value.ctx;
      && payload.id !in ctx.store && payload.kind.InlineAtom? && payload.content.AtomPayload?
      && at.node in ctx.store && ctx.store[at.node].content.Inline? && at.node != payload.id
      && AtomAttached(ctx.store[at.node].content.inline, CaretOf(at), payload.id).Ok?
      && post.root == ctx.root && ctx.nextId <= post.nextId < U64_LIMIT && payload.id < post.nextId
      && post.store == ctx.store[payload.id := payload]
           [at.node := ctx.store[at.node].(content := Inline(AtomAttached(ctx.store[at.node].content.inline,
               CaretOf(at), payload.id).value))]
  {
    hide NodeOk, IsDepth, Validate, AtomAttached, Chars, CountAt;
    NodeInTree(ctx.store, ctx.root, at.node);
  }

  lemma {:induction false} UndoRestoreAtom(ctx: Ctx, at: InlinePoint, payload: Node)
    requires CtxOk(ctx) && ApplyRestoreInlineAtom(ctx, at, payload).Ok?
    requires CtxOk(ApplyRestoreInlineAtom(ctx, at, payload).value.ctx)
    ensures var applied := ApplyRestoreInlineAtom(ctx, at, payload).value;
      Undoes(ctx, applied.ctx, applied.inverse)
  {
    hide IsTree, NodeOk, Run, Validate, AtomAttached, ApplyRemoveInlineAtom, GapCheck, Attach;
    RestoredAtomFacts(ctx, at, payload);
    var applied := ApplyRestoreInlineAtom(ctx, at, payload).value;
    forall nextId | applied.ctx.nextId <= nextId < U64_LIMIT
      ensures UndoneFrom(ctx, applied.ctx.(nextId := nextId), applied.inverse)
    {
      var from := applied.ctx.(nextId := nextId);
      RemoveAttached(ctx, at, payload, from);
      UndoneByOne(ctx, from, RemoveInlineAtomStep(payload.id));
    }
  }

  // The recorded ordinal is the gap before the removed placement.
  lemma {:induction false} RecordedOrdinal(atoms: seq<Placement>, j: nat)
    requires SortedAtoms(atoms) && j < |atoms|
    ensures Caret(atoms[j].offset, CountAt(atoms[..j], atoms[j].offset)) == GapBefore(atoms, j)
  {
    hide FirstAt, CountAt;
    var x := atoms[j].offset;
    GapIsCaret(atoms, j);
    AtomBlocks(atoms, x);
    FirstAtUnique(atoms[..j], x, FirstAt(atoms, x));
    FirstAtUnique(atoms[..j], x + 1, j);
    CountIsGap(atoms[..j], x);
  }

  lemma {:induction false} RemovedAtomFacts(ctx: Ctx, atom: NodeId)
    requires CtxOk(ctx) && ApplyRemoveInlineAtom(ctx, atom).Ok?
    ensures AtomParentOf(ctx.store, atom).Ok?
    ensures var n := AtomParentOf(ctx.store, atom).value; var applied := ApplyRemoveInlineAtom(ctx, atom).value;
      && atom in ctx.store && ctx.store[atom].id == atom && ctx.store[atom].kind.InlineAtom?
        && ctx.store[atom].content.AtomPayload?
      && n in ctx.store && n != atom && atom != ctx.root && ctx.store[n].content.Inline?
        && WfContent(ctx.store[n].content.inline)
      && Validate(ctx.store[n]).Pass? && ctx.store[n].id == n && Edge(ctx.store, n, atom)
      && atom in Identities(ctx.store[n].content.inline.atoms)
    ensures var n := AtomParentOf(ctx.store, atom).value; var applied := ApplyRemoveInlineAtom(ctx, atom).value;
      var c := ctx.store[n].content.inline; var j := PositionOf(Identities(c.atoms), atom).value;
      && c.atoms[j].atom == atom
      && applied.ctx == ctx.(store := ctx.store[n := ctx.store[n].(content := Inline(AtomDetached(c, j)))] - {atom})
      && applied.maps == [InlineAtomRemoved(n, GapBefore(c.atoms, j).offset, GapBefore(c.atoms, j).ordinal, atom)]
      && applied.inverse == [RestoreInlineAtomStep(
           InlinePoint(n, GapBefore(c.atoms, j).offset, GapBefore(c.atoms, j).ordinal, BeforeGlyph), ctx.store[atom])]
  {
    hide IsTree, Validate, PositionOf, AtomParentOf, AtomDetached, CountAt, FirstAt, CharsOk, Chars, CanonicalRuns;
    hide Boundary, NodeOk;
    NodeInTree(ctx.store, ctx.root, atom);
    var n := AtomParentOf(ctx.store, atom).value;
    assert PlacesAtom(ctx.store, n, atom) by { AtomParentPlaces(ctx.store, atom); }
    AtomParentIs(ctx.store, ctx.root, n, atom);
    TreeKnowsAtoms(ctx.store, ctx.root, n);
    AtomIsPayload(ctx.store[atom]);
    var c := ctx.store[n].content.inline;
    var j := PositionOf(Identities(c.atoms), atom).value;
    assert Identities(c.atoms)[j] == atom;
    RecordedOrdinal(c.atoms, j);
  }

  lemma AtomParentPlaces(store: Store, atom: NodeId)
    requires AtomParentOf(store, atom).Ok?
    ensures PlacesAtom(store, AtomParentOf(store, atom).value, atom)
  {}

  lemma AtomIsPayload(node: Node)
    requires NodeOk(node) && node.kind.InlineAtom?
    ensures node.content.AtomPayload?
  {
    hide WfContent;
  }

  lemma {:induction false} UndoRemoveAtom(ctx: Ctx, atom: NodeId)
    requires CtxOk(ctx) && ApplyRemoveInlineAtom(ctx, atom).Ok?
    ensures var applied := ApplyRemoveInlineAtom(ctx, atom).value; Undoes(ctx, applied.ctx, applied.inverse)
  {
    hide IsTree, NodeOk, Run, Validate, PositionOf, AtomParentOf, AtomDetached, AtomAttached, CountAt, FirstAt, Chars;
    hide Identities, WfContent, GapBefore, Boundary, ApplyRemoveInlineAtom;
    RemovedAtomFacts(ctx, atom);
    var applied := ApplyRemoveInlineAtom(ctx, atom).value;
    var n := AtomParentOf(ctx.store, atom).value;
    var c := ctx.store[n].content.inline;
    var j := PositionOf(Identities(c.atoms), atom).value;
    WfSorted(c);
    var gap := GapBefore(c.atoms, j);
    var at := InlinePoint(n, gap.offset, gap.ordinal, BeforeGlyph);
    var detached := AtomDetached(c, j);
    AttachUndoesDetach(c, j);
    AttachedMeansGap(detached, gap, atom);
    ValidateNewInline(ctx.store[n], detached);
    assert ctx.store[n].(content := Inline(detached)).(content := Inline(c)) == ctx.store[n];
    var post := applied.ctx;
    assert post.store[atom := ctx.store[atom]][n := ctx.store[n]] == ctx.store;
    forall nextId | post.nextId <= nextId < U64_LIMIT
      ensures UndoneFrom(ctx, post.(nextId := nextId), applied.inverse)
    {
      var from := post.(nextId := nextId);
      var back := RestoreInlineAtomStep(at, ctx.store[atom]);
      assert ApplyStep(from, back) == ApplyRestoreInlineAtom(from, at, ctx.store[atom]);
      UndoneByOne(ctx, from, back);
    }
  }

  lemma WfSorted(c: InlineContent)
    requires WfContent(c)
    ensures SortedAtoms(c.atoms)
  {
    hide CharsOk;
  }

  lemma AttachedMeansGap(c: InlineContent, p: Caret, atom: NodeId)
    requires AtomAttached(c, p, atom).Ok?
    ensures OffsetCheck(Chars(c.runs), p.offset).Pass? && p.ordinal <= CountAt(c.atoms, p.offset)
  {
    hide Chars, CountAt, FirstAt;
  }

  // ----- splits

  // What a split leaves in the store.
  ghost predicate SplitStore(before: Store, after: Store, parent: NodeId, node: NodeId, tail: Node,
                             head: InlineContent, index: nat)
    requires parent in before && before[parent].content.Children? && index <= |before[parent].content.children|
    requires node in before
  {
    after == before[tail.id := tail][node := before[node].(content := Inline(head))]
      [parent := before[parent].(content := Children(InsertId(before[parent].content.children, index, tail.id)))]
  }

  lemma {:induction false} GrownTail(ctx: Ctx, node: NodeId, tail: InlineContent, restored: Option<Node>)
    requires node in ctx.store && GrowTail(ctx, node, tail, restored).Ok? && ctx.nextId < U64_LIMIT
    ensures var grown := GrowTail(ctx, node, tail, restored).value;
      var id := if restored.Some? then restored.value.id else ctx.nextId;
      && id !in ctx.store && grown.root == ctx.root && id < grown.nextId && ctx.nextId <= grown.nextId < U64_LIMIT
      && id in grown.store && grown.store == ctx.store[id := grown.store[id]]
      && grown.store[id].id == id && grown.store[id].content == Inline(tail)
      && (restored.None? ==> Validate(grown.store[id]).Pass? && grown.store[id].kind == ctx.store[node].kind)
      && (restored.Some? ==> grown.store[id] == restored.value)
  {
    hide Validate;
  }

  lemma {:induction false} SplitFacts(ctx: Ctx, at: InlinePoint, restored: Option<Node>, mixed: bool)
    requires CtxOk(ctx) && SplitInline(ctx, at, restored, mixed).Ok?
    ensures at.node in ctx.store && ctx.store[at.node].content.Inline? && WfContent(ctx.store[at.node].content.inline)
    ensures SplitAt(ctx.store[at.node].content.inline, CaretOf(at)).Ok? && ParentOf(ctx.store, at.node).Ok?
    ensures var parent := ParentOf(ctx.store, at.node).value;
      && ChildEdge(ctx.store, parent, at.node) && parent != at.node && parent in ctx.store
      && ctx.store[parent].id == parent && ctx.store[at.node].id == at.node
      && Validate(ctx.store[parent]).Pass? && Validate(ctx.store[at.node]).Pass?
    ensures var parent := ParentOf(ctx.store, at.node).value; var children := ctx.store[parent].content.children;
      var halves := SplitAt(ctx.store[at.node].content.inline, CaretOf(at)).value;
      var applied := SplitInline(ctx, at, restored, mixed).value;
      var index := PositionOf(children, at.node).value + 1;
      var id := if restored.Some? then restored.value.id else ctx.nextId;
      && index <= |children|
      && id !in ctx.store && id in applied.ctx.store && applied.ctx.store[id].id == id
      && applied.ctx.store[id].content == Inline(halves.1)
      && (restored.None? ==>
        Validate(applied.ctx.store[id]).Pass? && applied.ctx.store[id].kind == ctx.store[at.node].kind)
      && (restored.Some? ==> applied.ctx.store[id] == restored.value)
      && SplitStore(ctx.store, applied.ctx.store, parent, at.node, applied.ctx.store[id], halves.0, index)
      && applied.ctx.root == ctx.root && ctx.nextId <= applied.ctx.nextId < U64_LIMIT && id < applied.ctx.nextId
      && applied.inverse == [JoinNodesStep(at.node, id)]
      && applied.maps == [if mixed then InlineNodeSplit(parent, index, at, id)
                          else NodeSplit(parent, index, at.node, at.offset, id)]
  {
    hide IsTree, Validate, PositionOf, ParentOf, SplitAt, InsertId, GrowTail, WfContent, NodeOk, ChildEdge;
    var c := ctx.store[at.node].content.inline;
    var halves := SplitAt(c, CaretOf(at)).value;
    ParentFound(ctx.store, ctx.root, at.node);
    var parent := ParentOf(ctx.store, at.node).value;
    TreeKnowsAtoms(ctx.store, ctx.root, at.node);
    assert parent in ctx.store;
    NodeInTree(ctx.store, ctx.root, parent);
    GrownTail(ctx, at.node, halves.1, restored);
  }

  lemma {:induction false} JoinAfterSplit(ctx: Ctx, parent: NodeId, node: NodeId, p: Caret, tail: Node, from: Ctx)
    requires CtxOk(ctx) && tail.id !in ctx.store && ChildEdge(ctx.store, parent, node)
    requires node in ctx.store && ctx.store[node].content.Inline? && WfContent(ctx.store[node].content.inline)
    requires SplitAt(ctx.store[node].content.inline, p).Ok?
    requires tail.content == Inline(SplitAt(ctx.store[node].content.inline, p).value.1)
    requires from.root == ctx.root && IsTree(from.store, from.root)
    requires PositionOf(ctx.store[parent].content.children, node).Some?
    requires SplitStore(ctx.store, from.store, parent, node, tail, SplitAt(ctx.store[node].content.inline, p).value.0,
                        PositionOf(ctx.store[parent].content.children, node).value + 1)
    ensures ApplyJoinNodes(from, node, tail.id).Ok?
    ensures ApplyJoinNodes(from, node, tail.id).value.ctx == Ctx(ctx.root, ctx.store, from.nextId)
  {
    hide IsTree, NodeOk, Validate, PositionOf, ParentOf, SplitAt, Joined, WfContent, JoinGap;
    var id := tail.id;
    var children := ctx.store[parent].content.children;
    var c := ctx.store[node].content.inline;
    var (head, rest) := SplitAt(c, p).value;
    var index := PositionOf(children, node).value + 1;
    ParentIs(ctx.store, ctx.root, parent, node);
    NodeInTree(ctx.store, ctx.root, parent);
    NodeInTree(ctx.store, ctx.root, node);
    var grown := InsertId(children, index, id);
    InsertedIsMember(children, index, id);
    assert ChildEdge(from.store, parent, node);
    ParentIs(from.store, from.root, parent, node);
    assert grown[..index - 1] == children[..index - 1];
    PositionIs(grown, node, index - 1);
    JoinUndoesSplit(c, p);
    assert grown[..index] + grown[index + 1..] == children;
    ValidateNewInline(ctx.store[node], head);
    ValidateNewChildren(ctx.store[parent], children);
    SplitStoreBack(ctx.store, from.store, parent, node, tail, head, index);
  }

  // Putting the two nodes back and dropping the tail undoes the split's store.
  lemma SplitStoreBack(store: Store, after: Store, parent: NodeId, node: NodeId, tail: Node, head: InlineContent,
                       index: nat)
    requires parent in store && store[parent].content.Children? && index <= |store[parent].content.children|
    requires node in store && store[node].content.Inline? && tail.id !in store && node != parent
    requires SplitStore(store, after, parent, node, tail, head, index)
    ensures node in after && after[node].(content := store[node].content) == store[node]
    ensures parent in after && after[parent].(content := store[parent].content) == store[parent]
    ensures after[node := store[node]][parent := store[parent]] - {tail.id} == store
  {
    hide InsertId;
  }

  lemma {:induction false} UndoSplit(ctx: Ctx, at: InlinePoint, restored: Option<Node>, mixed: bool)
    requires CtxOk(ctx) && SplitInline(ctx, at, restored, mixed).Ok?
      && CtxOk(SplitInline(ctx, at, restored, mixed).value.ctx)
    ensures var applied := SplitInline(ctx, at, restored, mixed).value; Undoes(ctx, applied.ctx, applied.inverse)
  {
    hide IsTree, NodeOk, Run, Validate, PositionOf, ParentOf, SplitAt, WfContent, SplitStore, SplitInline, ChildEdge;
    hide ApplyJoinNodes;
    SplitFacts(ctx, at, restored, mixed);
    var applied := SplitInline(ctx, at, restored, mixed).value;
    var id := if restored.Some? then restored.value.id else ctx.nextId;
    var parent := ParentOf(ctx.store, at.node).value;
    forall nextId | applied.ctx.nextId <= nextId < U64_LIMIT
      ensures UndoneFrom(ctx, applied.ctx.(nextId := nextId), applied.inverse)
    {
      var from := applied.ctx.(nextId := nextId);
      ChildHasPosition(ctx.store, parent, at.node);
      JoinAfterSplit(ctx, parent, at.node, CaretOf(at), applied.ctx.store[id], from);
      UndoneByOne(ctx, from, JoinNodesStep(at.node, id));
    }
  }

  lemma ChildHasPosition(store: Store, parent: NodeId, child: NodeId)
    requires ChildEdge(store, parent, child)
    ensures parent in store && store[parent].content.Children?
      && PositionOf(store[parent].content.children, child).Some?
  {}

  // ----- joins

  lemma {:induction false} JoinSiblings(ctx: Ctx, first: NodeId, second: NodeId)
    requires CtxOk(ctx) && ApplyJoinNodes(ctx, first, second).Ok?
    ensures first in ctx.store && second in ctx.store && first != second
    ensures ctx.store[first].content.Inline? && ctx.store[second].content.Inline?
    ensures Joined(ctx.store[first].content.inline, ctx.store[second].content.inline).Ok?
      && ParentOf(ctx.store, first).Ok?
    ensures var parent := ParentOf(ctx.store, first).value;
      && ChildEdge(ctx.store, parent, first) && ChildEdge(ctx.store, parent, second)
      && parent != first && parent != second && second != ctx.root
    ensures var parent := ParentOf(ctx.store, first).value; var children := ctx.store[parent].content.children;
      var i := PositionOf(children, first);
      i.Some? && i.value + 1 < |children| && children[i.value + 1] == second
  {
    hide IsTree, PositionOf, ParentOf, Joined, JoinGap, RewriteContent;
    ParentFound(ctx.store, ctx.root, first);
    var parent := ParentOf(ctx.store, first).value;
    var children := ctx.store[parent].content.children;
    assert second in children;
    assert ChildEdge(ctx.store, parent, second);
    ParentIs(ctx.store, ctx.root, parent, second);
  }

  lemma {:induction false} JoinFacts(ctx: Ctx, first: NodeId, second: NodeId)
    requires CtxOk(ctx) && ApplyJoinNodes(ctx, first, second).Ok?
    ensures first in ctx.store && second in ctx.store && first != second
    ensures ctx.store[first].content.Inline? && ctx.store[second].content.Inline?
    ensures WfContent(ctx.store[first].content.inline) && WfContent(ctx.store[second].content.inline)
    ensures Joined(ctx.store[first].content.inline, ctx.store[second].content.inline).Ok?
      && ParentOf(ctx.store, first).Ok?
    ensures var parent := ParentOf(ctx.store, first).value;
      && ChildEdge(ctx.store, parent, first) && ChildEdge(ctx.store, parent, second) && parent in ctx.store
      && parent != first && parent != second && second != ctx.root
      && ctx.store[parent].id == parent && ctx.store[first].id == first && ctx.store[second].id == second
      && Validate(ctx.store[parent]).Pass? && Validate(ctx.store[first]).Pass?
      && ctx.store[parent].content.Children? && Distinct(ctx.store[parent].content.children)
    ensures var parent := ParentOf(ctx.store, first).value; var children := ctx.store[parent].content.children;
      var i := PositionOf(children, first);
      i.Some? && i.value + 1 < |children| && children[i.value + 1] == second
  {
    hide IsTree, Validate, PositionOf, ParentOf, Joined, WfContent, NodeOk, Distinct, ApplyJoinNodes;
    JoinSiblings(ctx, first, second);
    var parent := ParentOf(ctx.store, first).value;
    assert parent in ctx.store && ctx.store[parent].content.Children?;
    TreeKnowsAtoms(ctx.store, ctx.root, first);
    TreeKnowsAtoms(ctx.store, ctx.root, second);
    NodeInTree(ctx.store, ctx.root, parent);
    ChildrenDistinct(ctx.store, ctx.root, parent);
  }

  // What a join leaves, once its operands are known.
  ghost predicate JoinLeaves(ctx: Ctx, first: NodeId, second: NodeId, parent: NodeId, i: nat, applied: Applied) {
    && first in ctx.store && second in ctx.store && parent in ctx.store
    && ctx.store[first].content.Inline? && ctx.store[second].content.Inline? && ctx.store[parent].content.Children?
    && var children := ctx.store[parent].content.children;
      var a, b := ctx.store[first].content.inline, ctx.store[second].content.inline;
      && i + 1 < |children| && Joined(a, b).Ok?
      && applied.ctx == ctx.(store := ctx.store[first := ctx.store[first].(content := Inline(Joined(a, b).value))]
           [parent := ctx.store[parent].(content := Children(children[..i + 1] + children[i + 2..]))] - {second})
      && applied.inverse == [RestoreJoinedNodeStep(InlinePoint(first, JoinGap(a).offset, JoinGap(a).ordinal,
          BeforeGlyph), ctx.store[second])]
      && applied.maps == [if a.atoms != [] || b.atoms != []
           then InlineNodeJoined(parent, i + 1, first, second, JoinGap(a).offset, JoinGap(a).ordinal)
           else NodeJoined(parent, i + 1, first, second, JoinGap(a).offset, {second})]
  }

  lemma {:induction false} JoinResult(ctx: Ctx, first: NodeId, second: NodeId)
    requires CtxOk(ctx) && ApplyJoinNodes(ctx, first, second).Ok?
    ensures ParentOf(ctx.store, first).Ok?
    ensures ChildEdge(ctx.store, ParentOf(ctx.store, first).value, first)
    ensures PositionOf(ctx.store[ParentOf(ctx.store, first).value].content.children, first).Some?
    ensures JoinLeaves(ctx, first, second, ParentOf(ctx.store, first).value,
                       PositionOf(ctx.store[ParentOf(ctx.store, first).value].content.children, first).value,
                       ApplyJoinNodes(ctx, first, second).value)
  {
    hide CtxOk, Validate, PositionOf, ParentOf, Joined, WfContent, JoinGap, Distinct, ChildEdge;
    JoinFacts(ctx, first, second);
  }

  lemma {:induction false} JoinedChildren(children: seq<NodeId>, first: NodeId, second: NodeId, i: nat)
    requires Distinct(children) && PositionOf(children, first) == Some(i) && i + 1 < |children|
      && children[i + 1] == second
    ensures var rest := children[..i + 1] + children[i + 2..];
      && PositionOf(rest, first) == Some(i) && first in rest && i + 1 <= |rest|
      && InsertId(rest, i + 1, second) == children
      && (forall c :: c in rest <==> c in children && c != second)
  {
    hide PositionOf;
    var rest := children[..i + 1] + children[i + 2..];
    PositionHolds(children, first);
    assert rest[i] == first && rest[..i] == children[..i];
    PositionIs(rest, first, i);
    assert rest[..i + 1] == children[..i + 1] && rest[i + 1..] == children[i + 2..];
    assert children == children[..i + 1] + [second] + children[i + 2..];
    forall c
      ensures c in rest <==> c in children && c != second
    {
      if c in rest {
        var k :| 0 <= k < |rest| && rest[k] == c;
        assert c == children[if k <= i then k else k + 1];
      }
    }
  }

  lemma PositionHolds(ids: seq<NodeId>, id: NodeId)
    requires PositionOf(ids, id).Some?
    ensures var k := PositionOf(ids, id).value; k < |ids| && ids[k] == id && id !in ids[..k]
  {}

  lemma {:induction false} SplitAfterJoin(ctx: Ctx, first: NodeId, second: NodeId, from: Ctx)
    requires CtxOk(ctx) && ApplyJoinNodes(ctx, first, second).Ok?
    requires IsTree(from.store, from.root) && from.root == ctx.root && ctx.nextId <= from.nextId < U64_LIMIT
    requires from.store == ApplyJoinNodes(ctx, first, second).value.ctx.store
    ensures first in ctx.store && second in ctx.store && ctx.store[first].content.Inline?
    ensures var gap := JoinGap(ctx.store[first].content.inline);
      var r := ApplyRestoreJoinedNode(from, InlinePoint(first, gap.offset, gap.ordinal, BeforeGlyph),
          ctx.store[second]);
      r.Ok? && r.value.ctx == Ctx(ctx.root, ctx.store, from.nextId)
  {
    hide IsTree, NodeOk, Validate, PositionOf, ParentOf, SplitAt, Joined, WfContent, JoinGap, InsertId;
    hide ApplyJoinNodes, Distinct;
    JoinFacts(ctx, first, second);
    JoinResult(ctx, first, second);
    var parent := ParentOf(ctx.store, first).value;
    var children := ctx.store[parent].content.children;
    var i := PositionOf(children, first).value;
    var rest := children[..i + 1] + children[i + 2..];
    var a, b := ctx.store[first].content.inline, ctx.store[second].content.inline;
    var merged := Joined(a, b).value;
    JoinedChildren(children, first, second, i);
    assert ChildEdge(from.store, parent, first);
    ParentIs(from.store, from.root, parent, first);
    SplitUndoesJoin(a, b);
    ValidateNewInline(ctx.store[first], merged);
    ValidateNewChildren(ctx.store[parent], rest);
    assert ctx.store[first].(content := Inline(merged)).(content := Inline(a)) == ctx.store[first];
    assert ctx.store[parent].(content := Children(rest)).(content := Children(children)) == ctx.store[parent];
    ValidateNewInline(ctx.store[first].(content := Inline(merged)), a);
    ValidateNewChildren(ctx.store[parent].(content := Children(rest)), children);
    assert from.store[second := ctx.store[second]][first := ctx.store[first]][parent := ctx.store[parent]] == ctx.store;
    IdBelow(ctx, second);
  }

  lemma {:induction false} UndoJoin(ctx: Ctx, first: NodeId, second: NodeId)
    requires CtxOk(ctx) && ApplyJoinNodes(ctx, first, second).Ok? && CtxOk(ApplyJoinNodes(ctx, first, second).value.ctx)
    ensures var applied := ApplyJoinNodes(ctx, first, second).value; Undoes(ctx, applied.ctx, applied.inverse)
  {
    hide IsTree, NodeOk, Run, Validate, PositionOf, ParentOf, Joined, WfContent, JoinGap, ApplyJoinNodes;
    hide ApplyRestoreJoinedNode, ChildEdge, Distinct;
    JoinResult(ctx, first, second);
    var applied := ApplyJoinNodes(ctx, first, second).value;
    var gap := JoinGap(ctx.store[first].content.inline);
    var at := InlinePoint(first, gap.offset, gap.ordinal, BeforeGlyph);
    forall nextId | applied.ctx.nextId <= nextId < U64_LIMIT
      ensures UndoneFrom(ctx, applied.ctx.(nextId := nextId), applied.inverse)
    {
      var from := applied.ctx.(nextId := nextId);
      SplitAfterJoin(ctx, first, second, from);
      UndoneByOne(ctx, from, RestoreJoinedNodeStep(at, ctx.store[second]));
    }
  }
}
