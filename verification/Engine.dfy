// The working state of one application pass, updated in place step by step
// (crates/xiaomu-core/src/transaction/apply.rs and its submodules).
module Engine {
  import opened Wrappers
  import opened Numbers
  import opened Text
  import opened Marks
  import opened Content
  import opened InlineEdit
  import opened Flat
  import opened InlineLaws
  import opened Nodes
  import opened InputMarks
  import opened Mapping
  import opened Steps
  import opened Inverse
  import opened InlineUndo
  import opened Structure
  import opened Tree
  import opened WorkingStore
  import opened Apply
  import opened Undo
  import opened UndoTree
  import opened UndoRun
  import opened TreeSteps
  import opened Searches

  // The mapping data and inverse steps of one step.
  type StepResult = Result<(seq<StepMap>, seq<TransactionStep>)>

  // A step method did what the specification says: same failure, or same
  // outputs and same new state.
  ghost predicate Did(spec: Result<Applied>, r: StepResult, state: Ctx) {
    match spec
    case Ok(a) => r == Ok((a.maps, a.inverse)) && state == a.ctx
    case Err(error) => r == Err(error)
  }

  class ApplyContext {
    const root: NodeId
    const store: NodeStore
    var nextNodeId: nat

    constructor (initial: Ctx)
      ensures State() == initial && fresh(store)
    {
      root := initial.root;
      nextNodeId := initial.nextId;
      store := new NodeStore(initial.store);
    }

    ghost function State(): Ctx
      reads this, store
    {
      Ctx(root, store.nodes, nextNodeId)
    }

    method AllocateNode(kind: NodeKind, attrs: NodeAttrs, content: NodeContent) returns (r: Result<NodeId>)
      modifies this, store
      ensures match Allocate(old(State()), kind, attrs, content)
        case Ok(grown) => r == Ok(old(nextNodeId)) && State() == grown
        case Err(error) => r == Err(error) && State() == old(State())
    {
      hide Validate;
      var raw := nextNodeId;
      if raw + 1 >= U64_LIMIT {
        return Err(NodeIdExhausted);
      }
      var node :- NewNode(raw, kind, attrs, content);
      var inserted := store.InsertNodeMut(node);
      if inserted.Fail? {
        return Err(inserted.error);
      }
      nextNodeId := raw + 1;
      return Ok(raw);
    }

    method RewriteNode(id: NodeId, attrs: NodeAttrs, content: NodeContent) returns (r: Outcome)
      requires id in store.nodes ==> store.nodes[id].id == id
      modifies store
      ensures match Rewrite(old(store.nodes), id, attrs, content)
        case Ok(next) => r == Pass && store.nodes == next
        case Err(error) => r == Fail(error) && store.nodes == old(store.nodes)
    {
      hide Validate;
      if id !in store.nodes {
        return Fail(UnknownNode);
      }
      var node := store.nodes[id];
      var rewritten := NewNode(node.id, node.kind, attrs, content);
      if rewritten.Err? {
        return Fail(rewritten.error);
      }
      r := store.ReplaceNodeMut(rewritten.value);
    }

    // `rewrite_node` with the node's own attributes.
    method RewriteContentOf(id: NodeId, content: NodeContent) returns (r: Outcome)
      requires id in store.nodes ==> store.nodes[id].id == id
      modifies store
      ensures match RewriteContent(old(store.nodes), id, content)
        case Ok(next) => r == Pass && store.nodes == next
        case Err(error) => r == Fail(error) && store.nodes == old(store.nodes)
    {
      if id !in store.nodes {
        return Fail(UnknownNode);
      }
      r := RewriteNode(id, store.nodes[id].attrs, content);
    }

    // ----- text and marks

    method ApplyReplaceText(node: NodeId, start: nat, end: nat, text: seq<byte>) returns (r: StepResult)
      requires CtxOk(State()) && ValidUtf8(text)
      modifies this, store
      ensures Did(Apply.ApplyReplaceText(old(State()), node, start, end, text), r, State())
    {
      hide IsTree, WfContent, Rewrite, TextReplaced, Inherited, ReplaceTextInverse, SpansOf, Chars, ValidUtf8;
      hide RangeCheck;
      var content :- InlineOf(store.nodes, node);
      TreeKnowsAtoms(store.nodes, root, node);
      WfParts(content);
      ReplaceNeedsRange(content, start, end, text);
      var spans :- SpansWithin(content.runs, start, end);
      var next :- ReplaceText(content, start, end, text);
      WfParts(next);
      var inverse := BuildReplaceTextInverse(node, start, |text|, next, spans);
      var done := RewriteContentOf(node, Inline(next));
      if done.Fail? {
        return Err(done.error);
      }
      return Ok(([TextReplacedMap(node, start, end, |text|)], inverse));
    }

    method ApplyMarkChange(node: NodeId, start: nat, end: nat, change: MarkChange) returns (r: StepResult)
      requires CtxOk(State())
      modifies this, store
      ensures Did(Apply.ApplyMarkChange(old(State()), node, start, end, change), r, State())
    {
      hide IsTree, WfContent, Rewrite, MarkChangeInverse, SpansOf, Chars, RangeCheck, Group, ChangeChars;
      var content :- InlineOf(store.nodes, node);
      TreeKnowsAtoms(store.nodes, root, node);
      WfParts(content);
      var spans :- SpansWithin(content.runs, start, end);
      var inverse := MarkChangeInverse(node, start, end, change, spans);
      // The spans have checked the range.
      var next := ChangeMarks(content, start, end, change);
      var done := RewriteContentOf(node, Inline(next.value));
      if done.Fail? {
        return Err(done.error);
      }
      return Ok(([], inverse));
    }

    method ApplyReplaceInlineText(at: InlinePoint, end: nat, text: seq<byte>) returns (r: StepResult)
      requires CtxOk(State()) && ValidUtf8(text)
      modifies this, store
      ensures Did(Apply.ApplyReplaceInlineText(old(State()), at, end, text), r, State())
    {
      hide IsTree, WfContent, Rewrite, InlineTextReplaced, InheritedMarks, ReplaceInlineTextInverse, SpansOf, Chars;
      hide ValidUtf8, RangeCheck;
      var content :- InlineOf(store.nodes, at.node);
      TreeKnowsAtoms(store.nodes, root, at.node);
      WfParts(content);
      var spans :- SpansWithin(content.runs, at.offset, end);
      var marks :- FindInheritedMarks(store.nodes, content, CaretOf(at));
      InheritedNeedsCaret(store.nodes, content, CaretOf(at));
      InheritedIsValid(store.nodes, content, CaretOf(at));
      var next :- ReplaceInlineText(content, at.offset, at.ordinal, end, text, marks);
      var restored :- FindInheritedMarks(store.nodes, next, CaretOf(at));
      var inverse := BuildReplaceInlineTextInverse(at, |text|, restored, spans);
      var done := RewriteContentOf(at.node, Inline(next));
      if done.Fail? {
        return Err(done.error);
      }
      return Ok(([InlineTextReplacedMap(at.node, at.offset, end, |text|, at.ordinal)], inverse));
    }

    // ----- payloads and kinds

    method ApplySetInlineAtomMarks(atom: NodeId, marks: MarkSet) returns (r: StepResult)
      requires CtxOk(State())
      modifies this, store
      ensures Did(Apply.ApplySetInlineAtomMarks(old(State()), atom, marks), r, State())
    {
      hide IsTree, Rewrite;
      if atom !in store.nodes {
        return Err(UnknownNode);
      }
      NodeInTree(store.nodes, root, atom);
      var content := store.nodes[atom].content;
      if !content.AtomPayload? {
        return Err(InvalidTransaction);
      }
      var done := RewriteContentOf(atom, content.(marks := marks));
      if done.Fail? {
        return Err(done.error);
      }
      return Ok(([], [SetInlineAtomMarksStep(atom, content.marks)]));
    }

    method ApplySetNodeAttrs(node: NodeId, attrs: NodeAttrs) returns (r: StepResult)
      requires CtxOk(State())
      modifies this, store
      ensures Did(Apply.ApplySetNodeAttrs(old(State()), node, attrs), r, State())
    {
      hide IsTree, Rewrite;
      if node !in store.nodes {
        return Err(UnknownNode);
      }
      NodeInTree(store.nodes, root, node);
      var previous := store.nodes[node].attrs;
      var done := RewriteNode(node, attrs, store.nodes[node].content);
      if done.Fail? {
        return Err(done.error);
      }
      return Ok(([], [SetNodeAttrsStep(node, previous)]));
    }

    method ApplySetNodeKind(node: NodeId, kind: NodeKind) returns (r: StepResult)
      requires CtxOk(State())
      modifies this, store
      ensures Did(Apply.ApplySetNodeKind(old(State()), node, kind), r, State())
    {
      hide IsTree, ParentOf, AllowsChild, Validate;
      if node !in store.nodes {
        return Err(UnknownNode);
      }
      NodeInTree(store.nodes, root, node);
      var current := store.nodes[node];
      if current.id == root {
        return Err(InvalidRootNode);
      }
      var parent :- FindParent(store.nodes, root, node);
      if parent !in store.nodes {
        return Err(UnknownNode);
      }
      if !AllowsChild(store.nodes[parent].kind, kind) {
        return Err(InvalidChildKind);
      }
      var rewritten :- NewNode(current.id, kind, current.attrs, current.content);
      var done := store.ReplaceNodeMut(rewritten);
      return Ok(([], [SetNodeKindStep(node, current.kind)]));
    }

    // ----- blocks

    method ApplyInsertNode(parent: NodeId, index: nat, kind: NodeKind, attrs: NodeAttrs, content: NodeContent)
      returns (r: StepResult)
      requires CtxOk(State())
      modifies this, store
      ensures Did(Apply.ApplyInsertNode(old(State()), parent, index, kind, attrs, content), r, State())
    {
      hide IsTree, Rewrite, Validate;
      var children :- ChildrenOf(store.nodes, parent);
      if index > |children| {
        return Err(InvalidTransaction);
      }
      NodeInTree(store.nodes, root, parent);
      ghost var before := State();
      var id :- AllocateNode(kind, attrs, content);
      AllocatedKeeps(before, kind, attrs, content);
      children := children[..index] + [id] + children[index..];
      var done := RewriteContentOf(parent, Children(children));
      if done.Fail? {
        return Err(done.error);
      }
      return Ok(([NodeInserted(parent, index, id)], [RemoveNodeStep(id)]));
    }

    method ApplyRemoveNode(node: NodeId) returns (r: StepResult)
      requires CtxOk(State())
      modifies this, store
      ensures Did(Apply.ApplyRemoveNode(old(State()), node), r, State())
    {
      hide IsTree, Rewrite, ParentOf, Subtree, PositionOf, WithoutId, PayloadsOf;
      if node == root {
        return Err(InvalidTransaction);
      }
      var parent :- FindParent(store.nodes, root, node);
      ChildIsStored(store.nodes, root, node);
      TreeIsClosed(store.nodes, root);
      var subtree := CollectSubtree(store.nodes, node);
      var payloads := CollectPayloads(store.nodes, SortedIds(subtree));
      var children :- ChildrenOf(store.nodes, parent);
      var index := FindPosition(children, node);
      if index.None? {
        return Err(InvalidTransaction);
      }
      children := RetainOthers(children, node);
      var done := RewriteContentOf(parent, Children(children));
      if done.Fail? {
        return Err(done.error);
      }
      store.RemoveNodesMut(subtree);
      return Ok(([NodeRemoved(parent, index.value, subtree)],
                 [RestoreSubtreeStep(parent, index.value, node, payloads)]));
    }

    method ApplyRestoreSubtree(parent: NodeId, index: nat, top: NodeId, nodes: seq<Node>) returns (r: StepResult)
      requires CtxOk(State())
      modifies this, store
      ensures Did(Apply.ApplyRestoreSubtree(old(State()), parent, index, top, nodes), r, State())
    {
      hide IsTree, Validate, CheckRestored, PutNodes, CanExchange, Exchanged;
      var ids := CollectIds(nodes);
      if top !in ids || exists id :: id in ids && id in store.nodes {
        NotAllNew(store.nodes, nodes, top);
        return Err(InvalidTransaction);
      }
      AllNew(store.nodes, nodes);
      var children :- ChildrenOf(store.nodes, parent);
      if index > |children| {
        return Err(InvalidTransaction);
      }
      var nextId :- CheckAndRaise(nodes, nextNodeId);
      var oldParent := store.nodes[parent];
      children := children[..index] + [top] + children[index..];
      var updated :- NewNode(parent, oldParent.kind, oldParent.attrs, Children(children));
      CheckedIdsDistinct(nodes, nextNodeId);
      NodeInTree(store.nodes, root, parent);
      RestoreExchanges(store.nodes, nodes, oldParent, updated);
      ghost var before := store.nodes;
      var done := store.ExchangeMut([oldParent], nodes + [updated]);
      ExchangeUnique(before, [oldParent], nodes + [updated], store.nodes, PutNodes(before, nodes)[parent := updated]);
      nextNodeId := nextId;
      return Ok(([NodeInserted(parent, index, top)], [RemoveNodeStep(top)]));
    }

    // ----- atoms

    method ValidateInlineGap(at: InlinePoint) returns (r: Outcome)
      requires CtxOk(State())
      ensures r == GapCheck(store.nodes, at)
    {
      hide IsTree, WfContent, Chars, CountAt, OffsetCheck;
      var content := InlineOf(store.nodes, at.node);
      if content.Err? {
        return Fail(content.error);
      }
      TreeKnowsAtoms(store.nodes, root, at.node);
      WfParts(content.value);
      r := ValidateOffset(content.value.runs, at.offset);
      if r.Fail? {
        return;
      }
      var count := AtomCountAt(content.value.atoms, at.offset);
      if at.ordinal > count {
        return Fail(InvalidSelection);
      }
    }

    // Places a stored atom at a gap that exists.
    method AttachInlineAtom(at: InlinePoint, atom: NodeId) returns (r: Outcome)
      requires at.node in store.nodes && store.nodes[at.node].id == at.node && store.nodes[at.node].content.Inline?
      requires WfContent(store.nodes[at.node].content.inline)
      requires GapCheck(store.nodes, at).Pass? && atom !in Identities(store.nodes[at.node].content.inline.atoms)
      modifies store
      ensures match Attach(old(store.nodes), at, atom)
        case Ok(next) => r == Pass && store.nodes == next
        case Err(error) => r == Fail(error) && store.nodes == old(store.nodes)
    {
      hide WfContent, Chars, CountAt, FirstAt, OffsetCheck, AtomAttached, Rewrite, Identities, Group, AnchoredAtoms;
      var content := store.nodes[at.node].content.inline;
      WfParts(content);
      AttachAccepted(content, CaretOf(at), atom);
      var firstAtOrAfter := FirstAtOrAfter(content.atoms, at.offset);
      var insertAt := firstAtOrAfter + at.ordinal;
      var placements := content.atoms[..insertAt] + [Placement(atom, at.offset)] + content.atoms[insertAt..];
      var next := WithAtoms(content.runs, placements);
      r := RewriteContentOf(at.node, Inline(next.value));
    }

    method ApplyInsertInlineAtom(at: InlinePoint, atomKind: AtomKind, attrs: NodeAttrs, fallback: seq<byte>,
                                 marks: MarkSet)
        returns (r: StepResult)
      requires CtxOk(State())
      modifies this, store
      ensures Did(Apply.ApplyInsertInlineAtom(old(State()), at, atomKind, attrs, fallback, marks), r, State())
    {
      hide IsTree, Validate, WfContent, GapCheck, Attach, Identities;
      var gap := ValidateInlineGap(at);
      if gap.Fail? {
        return Err(gap.error);
      }
      ghost var before := State();
      GapIsInline(before.store, at);
      TreeKnowsAtoms(before.store, root, at.node);
      var id :- AllocateNode(InlineAtom(atomKind), attrs, AtomPayload(fallback, marks));
      AllocatedKeeps(before, InlineAtom(atomKind), attrs, AtomPayload(fallback, marks));
      SameGap(before.store, store.nodes, at);
      NewIsNotPlaced(before.store, root, at.node, id);
      var attached := AttachInlineAtom(at, id);
      if attached.Fail? {
        return Err(attached.error);
      }
      return Ok(([InlineAtomInserted(at.node, at.offset, at.ordinal, id)], [RemoveInlineAtomStep(id)]));
    }

    method ApplyRemoveInlineAtom(atom: NodeId) returns (r: StepResult)
      requires CtxOk(State())
      modifies this, store
      ensures Did(Apply.ApplyRemoveInlineAtom(old(State()), atom), r, State())
    {
      hide IsTree, Validate, WfContent, AtomParentOf, PositionOf, CountAt, Rewrite, Group, Chars, Identities;
      if atom !in store.nodes {
        return Err(UnknownNode);
      }
      var payload := store.nodes[atom];
      if !payload.kind.InlineAtom? {
        return Err(InvalidTransaction);
      }
      var found :- FindInlineAtomParent(store.nodes, root, atom);
      var parent, j, placement, ordinal := found.0, found.1, found.2, found.3;
      var content := store.nodes[parent].content.inline;
      TreeKnowsAtoms(store.nodes, root, parent);
      WfParts(content);
      DetachAccepted(content, j);
      var next := WithAtoms(content.runs, content.atoms[..j] + content.atoms[j + 1..]);
      var done := RewriteContentOf(parent, Inline(next.value));
      if done.Fail? {
        return Err(done.error);
      }
      store.RemoveNodesMut({atom});
      return Ok(([InlineAtomRemoved(parent, placement.offset, ordinal, atom)],
                 [RestoreInlineAtomStep(InlinePoint(parent, placement.offset, ordinal, BeforeGlyph), payload)]));
    }

    method ApplyRestoreInlineAtom(at: InlinePoint, payload: Node) returns (r: StepResult)
      requires CtxOk(State())
      modifies this, store
      ensures Did(Apply.ApplyRestoreInlineAtom(old(State()), at, payload), r, State())
    {
      hide IsTree, Validate, WfContent, GapCheck, Attach, Identities;
      if payload.id in store.nodes || !payload.kind.InlineAtom? {
        return Err(InvalidTransaction);
      }
      if !payload.content.AtomPayload? {
        return Err(InvalidTransaction);
      }
      var gap := ValidateInlineGap(at);
      if gap.Fail? {
        return Err(gap.error);
      }
      if payload.id + 1 >= U64_LIMIT {
        return Err(NodeIdExhausted);
      }
      ghost var before := store.nodes;
      GapIsInline(before, at);
      TreeKnowsAtoms(before, root, at.node);
      nextNodeId := Max(nextNodeId, payload.id + 1);
      var inserted := store.InsertNodeMut(payload);
      SameGap(before, store.nodes, at);
      NewIsNotPlaced(before, root, at.node, payload.id);
      var attached := AttachInlineAtom(at, payload.id);
      if attached.Fail? {
        return Err(attached.error);
      }
      return Ok(([InlineAtomInserted(at.node, at.offset, at.ordinal, payload.id)], [RemoveInlineAtomStep(payload.id)]));
    }

    // ----- splits and joins

    // Stores the second half: a saved sibling holding exactly it, or a fresh one.
    method GrowTail(node: NodeId, attrs: NodeAttrs, tail: InlineContent, restored: Option<Node>)
      returns (r: Result<NodeId>)
      requires node in store.nodes && attrs == store.nodes[node].attrs
      modifies this, store
      ensures match Apply.GrowTail(old(State()), node, tail, restored)
        case Ok(grown) => r == Ok(if restored.Some? then restored.value.id else old(nextNodeId)) && State() == grown
        case Err(error) => r == Err(error)
    {
      hide Validate;
      if restored.Some? {
        if restored.value.content != Inline(tail) {
          return Err(InvalidTransaction);
        }
        if restored.value.id + 1 >= U64_LIMIT {
          return Err(NodeIdExhausted);
        }
        nextNodeId := Max(nextNodeId, restored.value.id + 1);
        var inserted := store.InsertNodeMut(restored.value);
        if inserted.Fail? {
          return Err(inserted.error);
        }
        return Ok(restored.value.id);
      }
      r := AllocateNode(store.nodes[node].kind, attrs, Inline(tail));
    }

    method SplitInlineNode(at: InlinePoint, restored: Option<Node>, mixed: bool) returns (r: StepResult)
      requires CtxOk(State())
      modifies this, store
      ensures Did(SplitInline(old(State()), at, restored, mixed), r, State())
    {
      hide IsTree, WfContent, SplitAt, ParentOf, PositionOf, Apply.GrowTail, Rewrite;
      var node := at.node;
      var content :- InlineOf(store.nodes, node);
      TreeKnowsAtoms(store.nodes, root, node);
      var halves :- SplitContent(content, CaretOf(at));
      var parent :- FindParent(store.nodes, root, node);
      ChildIsStored(store.nodes, root, node);
      var children :- ChildrenOf(store.nodes, parent);
      var position := FindPosition(children, node);
      if position.None? {
        return Err(InvalidTransaction);
      }
      var index := position.value + 1;
      var attrs := store.nodes[node].attrs;
      ghost var before := State();
      var tailId :- GrowTail(node, attrs, halves.1, restored);
      GrownKeeps(before, node, halves.1, restored);
      var headed := RewriteContentOf(node, Inline(halves.0));
      if headed.Fail? {
        return Err(headed.error);
      }
      RewrittenKeepsId(Apply.GrowTail(before, node, halves.1, restored).value.store, node, Inline(halves.0), parent);
      children := children[..index] + [tailId] + children[index..];
      var done := RewriteContentOf(parent, Children(children));
      if done.Fail? {
        return Err(done.error);
      }
      var stepMap := if mixed then InlineNodeSplit(parent, index, at, tailId)
                     else NodeSplit(parent, index, node, at.offset, tailId);
      return Ok(([stepMap], [JoinNodesStep(node, tailId)]));
    }

    method ApplySplitNode(node: NodeId, offset: nat) returns (r: StepResult)
      requires CtxOk(State())
      modifies this, store
      ensures Did(Apply.ApplySplitNode(old(State()), node, offset), r, State())
    {
      hide IsTree, WfContent, SplitInline, OffsetCheck, Chars;
      var content :- InlineOf(store.nodes, node);
      TreeKnowsAtoms(store.nodes, root, node);
      WfParts(content);
      var checked := ValidateOffset(content.runs, offset);
      if checked.Fail? {
        return Err(checked.error);
      }
      if content.atoms != [] {
        return Err(InvalidTransaction);
      }
      r := SplitInlineNode(InlinePoint(node, offset, 0, BeforeGlyph), None, false);
    }

    method ApplyRestoreJoinedNode(at: InlinePoint, payload: Node) returns (r: StepResult)
      requires CtxOk(State())
      modifies this, store
      ensures Did(Apply.ApplyRestoreJoinedNode(old(State()), at, payload), r, State())
    {
      hide IsTree, SplitInline;
      if payload.id in store.nodes || !payload.content.Inline? {
        return Err(InvalidTransaction);
      }
      var content :- InlineOf(store.nodes, at.node);
      r := SplitInlineNode(at, Some(payload), content.atoms != []);
    }

    method ApplyJoinNodes(first: NodeId, second: NodeId) returns (r: StepResult)
      requires CtxOk(State())
      modifies this, store
      ensures Did(Apply.ApplyJoinNodes(old(State()), first, second), r, State())
    {
      hide IsTree, WfContent, Joined, ParentOf, PositionOf, Rewrite, Chars, CountAt;
      var a :- InlineOf(store.nodes, first);
      var b :- InlineOf(store.nodes, second);
      if first == second {
        return Err(InvalidTransaction);
      }
      var parent :- FindParent(store.nodes, root, first);
      ChildIsStored(store.nodes, root, first);
      var children :- ChildrenOf(store.nodes, parent);
      var position := FindPosition(children, first);
      if position.None? {
        return Err(InvalidTransaction);
      }
      var index := position.value;
      if index + 1 >= |children| || children[index + 1] != second {
        return Err(InvalidTransaction);
      }
      TreeKnowsAtoms(store.nodes, root, first);
      TreeKnowsAtoms(store.nodes, root, second);
      var firstLen := LenBytes(a.runs);
      var seam := AtomCountAt(a.atoms, firstLen);
      var merged :- JoinContents(a, b);
      var absorbed := store.nodes[second];
      ghost var before := store.nodes;
      var headed := RewriteContentOf(first, Inline(merged));
      if headed.Fail? {
        return Err(headed.error);
      }
      RewrittenKeepsId(before, first, Inline(merged), parent);
      children := children[..index + 1] + children[index + 2..];
      var done := RewriteContentOf(parent, Children(children));
      if done.Fail? {
        return Err(done.error);
      }
      store.RemoveNodesMut({second});
      var stepMap := if a.atoms != [] || b.atoms != []
                     then InlineNodeJoined(parent, index + 1, first, second, firstLen, seam)
                     else NodeJoined(parent, index + 1, first, second, firstLen, {second});
      return Ok(([stepMap], [RestoreJoinedNodeStep(InlinePoint(first, firstLen, seam, BeforeGlyph), absorbed)]));
    }

    // ----- one step

    method ApplyStep(step: TransactionStep) returns (r: StepResult)
      requires CtxOk(State()) && WellTyped(step)
      modifies this, store
      ensures Did(Apply.ApplyStep(old(State()), step), r, State())
    {
      hide CtxOk, Did, ContentOk, NodeOk, ValidUtf8;
      hide Apply.ApplyReplaceText, Apply.ApplyReplaceInlineText, Apply.ApplyMarkChange, Apply.ApplyInsertInlineAtom;
      hide Apply.ApplyRemoveInlineAtom, Apply.ApplySetInlineAtomMarks, Apply.ApplyRestoreInlineAtom;
      hide Apply.ApplyInsertNode;
      hide Apply.ApplyRestoreSubtree, Apply.ApplyRemoveNode, Apply.ApplySetNodeAttrs, Apply.ApplySetNodeKind;
      hide Apply.ApplySplitNode, Apply.SplitInline, Apply.ApplyRestoreJoinedNode, Apply.ApplyJoinNodes;
      match step {
        case ReplaceTextStep(node, start, end, text) => r := ApplyReplaceText(node, start, end, text);
        case ReplaceInlineTextStep(at, end, text) => r := ApplyReplaceInlineText(at, end, text);
        case InsertInlineAtomStep(at, kind, attrs, fallback, marks) => r := ApplyInsertInlineAtom(at, kind, attrs,
            fallback, marks);
        case RemoveInlineAtomStep(atom) => r := ApplyRemoveInlineAtom(atom);
        case SetInlineAtomMarksStep(atom, marks) => r := ApplySetInlineAtomMarks(atom, marks);
        case RestoreInlineAtomStep(at, payload) => r := ApplyRestoreInlineAtom(at, payload);
        case InsertNodeStep(parent, index, kind, attrs, content) => r := ApplyInsertNode(parent, index, kind, attrs,
            content);
        case RestoreSubtreeStep(parent, index, top, nodes) => r := ApplyRestoreSubtree(parent, index, top, nodes);
        case RemoveNodeStep(node) => r := ApplyRemoveNode(node);
        case SetNodeAttrsStep(node, attrs) => r := ApplySetNodeAttrs(node, attrs);
        case SetNodeKindStep(node, kind) => r := ApplySetNodeKind(node, kind);
        case AddMarkStep(node, start, end, mark) => r := ApplyMarkChange(node, start, end, Add(mark));
        case RemoveMarkStep(node, start, end, kind) => r := ApplyMarkChange(node, start, end, Remove(kind));
        case SplitNodeStep(node, offset) => r := ApplySplitNode(node, offset);
        case SplitInlineNodeStep(at) => r := SplitInlineNode(at, None, true);
        case RestoreJoinedNodeStep(at, payload) => r := ApplyRestoreJoinedNode(at, payload);
        case JoinNodesStep(first, second) => r := ApplyJoinNodes(first, second);
      }
    }
  }

  lemma WfParts(c: InlineContent)
    requires WfContent(c)
    ensures CanonicalRuns(c.runs) && CharsOk(Chars(c.runs)) && SortedAtoms(c.atoms)
  {
    hide CharsOk, Chars;
  }

  lemma {:induction false} ReplaceNeedsRange(c: InlineContent, start: nat, end: nat, text: seq<byte>)
    ensures RangeCheck(Chars(c.runs), start, end).Fail? ==>
      TextReplaced(c, start, end, text) == Err(RangeCheck(Chars(c.runs), start, end).error)
    ensures TextReplaced(c, start, end, text).Ok? ==> start <= |Chars(TextReplaced(c, start, end, text).value.runs)|
  {
    hide Chars, Inherited, FirstAt, ClearFrom;
  }

  lemma AllocatedKeeps(ctx: Ctx, kind: NodeKind, attrs: NodeAttrs, content: NodeContent)
    requires Allocate(ctx, kind, attrs, content).Ok?
    ensures forall id :: id in ctx.store ==>
      id in Allocate(ctx, kind, attrs, content).value.store
        && Allocate(ctx, kind, attrs, content).value.store[id] == ctx.store[id]
  {
    hide Validate;
  }

  lemma TreeIsClosed(store: Store, root: NodeId)
    requires IsTree(store, root)
    ensures EdgesClosed(store)
  {
    hide EdgesClosed;
  }

  lemma ChildIsStored(store: Store, root: NodeId, node: NodeId)
    requires IsTree(store, root) && ParentOf(store, node).Ok?
    ensures node in store && ParentOf(store, node).value in store
    ensures store[node].id == node && store[ParentOf(store, node).value].id == ParentOf(store, node).value
  {
    hide IsTree, ParentOf;
    ParentFound(store, root, node);
    NodeInTree(store, root, node);
    NodeInTree(store, root, ParentOf(store, node).value);
  }

  method CollectPayloads(nodes: Store, ids: seq<NodeId>) returns (payloads: seq<Node>)
    ensures payloads == PayloadsOf(nodes, ids)
  {
    payloads := [];
    for i := 0 to |ids|
      invariant payloads == PayloadsOf(nodes, ids[..i])
    {
      assert ids[..i + 1][..i] == ids[..i];
      if ids[i] in nodes {
        payloads := payloads + [nodes[ids[i]]];
      }
    }
    assert ids[..|ids|] == ids;
  }

  method FindPosition(ids: seq<NodeId>, id: NodeId) returns (r: Option<nat>)
    ensures r == PositionOf(ids, id)
    ensures r.Some? <==> id in ids
  {
    hide PositionOf;
    for i := 0 to |ids|
      invariant id !in ids[..i]
    {
      if ids[i] == id {
        PositionIs(ids, id, i);
        return Some(i);
      }
    }
    assert ids[..|ids|] == ids;
    PositionAbsent(ids, id);
    return None;
  }

  // `retain(|child| child != id)`.
  method RetainOthers(ids: seq<NodeId>, id: NodeId) returns (r: seq<NodeId>)
    ensures r == WithoutId(ids, id)
  {
    hide WithoutId;
    r := [];
    WithoutAbsent([], id);
    for i := 0 to |ids|
      invariant r == WithoutId(ids[..i], id)
    {
      assert ids[..i + 1] == ids[..i] + [ids[i]];
      WithoutConcat(ids[..i], [ids[i]], id);
      WithoutStep([ids[i]], id);
      assert [ids[i]][1..] == [];
      if ids[i] != id {
        r := r + [ids[i]];
      }
    }
    assert ids[..|ids|] == ids;
  }

  // The preflight loop of a restore.
  method CheckAndRaise(nodes: seq<Node>, nextId: nat) returns (r: Result<nat>)
    ensures r == CheckRestored(nodes, nextId)
  {
    hide CheckRestored;
    var unique: set<NodeId> := {};
    var next := nextId;
    NothingRestored(nextId);
    assert nodes[..0] == [];
    for i := 0 to |nodes|
      invariant CheckRestored(nodes[..i], nextId) == Ok(next)
      invariant unique == Ids(nodes[..i])
    {
      RestoredPush(nodes, i, nextId);
      IdsPush(nodes, i);
      if nodes[i].id in unique {
        RestoredFailure(nodes, i + 1, nextId);
        return Err(DuplicateChildReference);
      }
      unique := unique + {nodes[i].id};
      if nodes[i].id + 1 >= U64_LIMIT {
        RestoredFailure(nodes, i + 1, nextId);
        return Err(NodeIdExhausted);
      }
      next := Max(next, nodes[i].id + 1);
    }
    assert nodes[..|nodes|] == nodes;
    return Ok(next);
  }

  lemma NothingRestored(nextId: nat)
    ensures CheckRestored([], nextId) == Ok(nextId)
  {}

  lemma RestoredPush(nodes: seq<Node>, i: nat, nextId: nat)
    requires i < |nodes|
    ensures CheckRestored(nodes[..i], nextId).Err? ==>
      CheckRestored(nodes[..i + 1], nextId) == CheckRestored(nodes[..i], nextId)
    ensures CheckRestored(nodes[..i], nextId).Ok? ==>
      CheckRestored(nodes[..i + 1], nextId) == (
        if nodes[i].id in Ids(nodes[..i]) then Err(DuplicateChildReference)
        else RaiseNext(CheckRestored(nodes[..i], nextId).value, nodes[i].id))
  {
    assert nodes[..i + 1][..i] == nodes[..i];
  }

  lemma {:induction false} RestoredFailure(nodes: seq<Node>, i: nat, nextId: nat)
    requires i <= |nodes| && CheckRestored(nodes[..i], nextId).Err?
    ensures CheckRestored(nodes, nextId) == CheckRestored(nodes[..i], nextId)
    decreases |nodes| - i
  {
    hide CheckRestored;
    if i == |nodes| {
      assert nodes[..i] == nodes;
    } else {
      RestoredPush(nodes, i, nextId);
      RestoredFailure(nodes, i + 1, nextId);
    }
  }

  lemma NotAllNew(store: Store, nodes: seq<Node>, top: NodeId)
    requires top !in Ids(nodes) || exists id :: id in Ids(nodes) && id in store
    ensures !(top in Ids(nodes) && forall i :: 0 <= i < |nodes| ==> nodes[i].id !in store)
  {}

  lemma AllNew(store: Store, nodes: seq<Node>)
    requires !exists id :: id in Ids(nodes) && id in store
    ensures forall i :: 0 <= i < |nodes| ==> nodes[i].id !in store && nodes[i].id in Ids(nodes)
  {}

  // Restoring exchanges the parent for the payloads and the updated parent.
  lemma {:induction false} RestoreExchanges(store: Store, nodes: seq<Node>, parent: Node, updated: Node)
    requires DistinctIds(nodes) && forall i :: 0 <= i < |nodes| ==> nodes[i].id !in store
    requires parent.id in store && store[parent.id] == parent && updated.id == parent.id
    ensures CanExchange(store, [parent], nodes + [updated])
    ensures Exchanged(store, [parent], nodes + [updated], PutNodes(store, nodes)[parent.id := updated])
  {
    hide PutNodes;
    PutNodesMeans(store, nodes);
    var replacement := nodes + [updated];
    IdsPush(replacement, |nodes|);
    assert replacement[..|nodes|] == nodes && replacement[..|nodes| + 1] == replacement;
    IdsPush([parent], 0);
    assert [parent][..0] == [] && [parent][..1] == [parent];
  }

  // `position(offset >= x)`, or the length.
  method FirstAtOrAfter(atoms: seq<Placement>, offset: nat) returns (r: nat)
    ensures r == FirstAt(atoms, offset)
  {
    r := 0;
    while r < |atoms| && atoms[r].offset < offset
      invariant r <= |atoms|
      invariant forall j :: 0 <= j < r ==> atoms[j].offset < offset
    {
      r := r + 1;
    }
    FirstAtUnique(atoms, offset, r);
  }

  lemma {:induction false} AttachAccepted(c: InlineContent, p: Caret, atom: NodeId)
    requires WfContent(c) && OffsetCheck(Chars(c.runs), p.offset).Pass? && p.ordinal <= CountAt(c.atoms, p.offset)
    requires atom !in Identities(c.atoms)
    ensures FirstAt(c.atoms, p.offset) + p.ordinal <= |c.atoms|
    ensures var cut := FirstAt(c.atoms, p.offset) + p.ordinal;
      var placed := c.atoms[..cut] + [Placement(atom, p.offset)] + c.atoms[cut..];
      && AtomAttached(c, p, atom) == Ok(InlineContent(c.runs, placed))
      && AnchoredAtoms(Chars(c.runs), placed) && DistinctAtoms(placed) && SortPlacements(placed) == placed
      && Group(Chars(c.runs)) == c.runs
  {
    hide Chars, CharsOk, Boundary, FirstAt, CountAt, Group;
    CaretCuts(c.atoms, p);
    var cut := FirstAt(c.atoms, p.offset) + p.ordinal;
    var placed := c.atoms[..cut] + [Placement(atom, p.offset)] + c.atoms[cut..];
    NewIdDistinct(c.atoms, cut, atom, p.offset);
    AttachedWf(c, p, atom);
    SortedIsFixed(placed);
    CanonicalRunsUnique(Group(Chars(c.runs)), c.runs);
  }

  lemma NewIdDistinct(atoms: seq<Placement>, cut: nat, atom: NodeId, offset: nat)
    requires DistinctAtoms(atoms) && cut <= |atoms| && atom !in Identities(atoms)
    ensures DistinctAtoms(atoms[..cut] + [Placement(atom, offset)] + atoms[cut..])
  {
    var placed := atoms[..cut] + [Placement(atom, offset)] + atoms[cut..];
    forall i, j | 0 <= i < j < |placed|
      ensures placed[i].atom != placed[j].atom
    {
      var x, y := if i < cut then i else i - 1, if j < cut then j else j - 1;
      if i == cut {
        assert placed[j] == atoms[y] && Identities(atoms)[y] in Identities(atoms);
      } else if j == cut {
        assert placed[i] == atoms[x] && Identities(atoms)[x] in Identities(atoms);
      } else {
        assert placed[i] == atoms[x] && placed[j] == atoms[y];
      }
    }
  }

  lemma {:induction false} DetachAccepted(c: InlineContent, j: nat)
    requires WfContent(c) && j < |c.atoms|
    ensures var kept := c.atoms[..j] + c.atoms[j + 1..];
      && AtomDetached(c, j) == InlineContent(c.runs, kept)
      && AnchoredAtoms(Chars(c.runs), kept) && DistinctAtoms(kept) && SortPlacements(kept) == kept
      && Group(Chars(c.runs)) == c.runs
  {
    hide Chars, CharsOk, Boundary, Group;
    DetachedWf(c, j);
    SortedIsFixed(c.atoms[..j] + c.atoms[j + 1..]);
    CanonicalRunsUnique(Group(Chars(c.runs)), c.runs);
  }

  lemma GapIsInline(store: Store, at: InlinePoint)
    requires GapCheck(store, at).Pass?
    ensures at.node in store && store[at.node].content.Inline?
  {
    hide Chars, CountAt, OffsetCheck;
  }

  lemma SameGap(store: Store, next: Store, at: InlinePoint)
    requires at.node in store && at.node in next && next[at.node] == store[at.node]
    ensures GapCheck(next, at) == GapCheck(store, at)
  {
    hide Chars, CountAt, OffsetCheck;
  }

  lemma NewIsNotPlaced(store: Store, root: NodeId, at: NodeId, atom: NodeId)
    requires IsTree(store, root) && atom !in store && at in store && store[at].content.Inline?
    ensures atom !in Identities(store[at].content.inline.atoms)
  {
    hide NodeOk, Distinct, IsDepth, Identities;
    assert Edge(store, at, atom) <==> atom in Identities(store[at].content.inline.atoms);
  }

  lemma GrownKeeps(ctx: Ctx, node: NodeId, tail: InlineContent, restored: Option<Node>)
    requires Apply.GrowTail(ctx, node, tail, restored).Ok?
    ensures forall id :: id in ctx.store ==>
      id in Apply.GrowTail(ctx, node, tail, restored).value.store
      && Apply.GrowTail(ctx, node, tail, restored).value.store[id] == ctx.store[id]
  {
    hide Validate;
  }

  lemma RewrittenKeepsId(store: Store, id: NodeId, content: NodeContent, other: NodeId)
    requires RewriteContent(store, id, content).Ok? && id in store && store[id].id == id
    requires other in store && store[other].id == other
    ensures var next := RewriteContent(store, id, content).value; other in next && next[other].id == other
  {
    hide Validate;
  }

  // ----- a whole run

  // The inverse groups, last first, as one list.
  function ReversedFlat(groups: seq<seq<TransactionStep>>): seq<TransactionStep> {
    if groups == [] then []
    else groups[|groups| - 1] + ReversedFlat(groups[..|groups| - 1])
  }

  // A longer run is the run before it and one more step.
  lemma {:induction false} RunPush(ctx: Ctx, steps: seq<TransactionStep>, step: TransactionStep)
    requires Run(ctx, steps).Ok?
    ensures match Apply.ApplyStep(Run(ctx, steps).value.ctx, step)
      case Ok(a) => Run(ctx, steps + [step]) ==
        Ok(Applied(a.ctx, Run(ctx, steps).value.maps + a.maps, a.inverse + Run(ctx, steps).value.inverse))
      case Err(error) => Run(ctx, steps + [step]) == Err(error)
    decreases |steps|
  {
    hide Apply.ApplyStep;
    if steps == [] {
      var a := Apply.ApplyStep(ctx, step);
      assert ([] + [step])[1..] == [];
      if a.Ok? {
        assert a.value.maps + [] == [] + a.value.maps;
        assert [] + a.value.inverse == a.value.inverse + [];
      }
    } else {
      var longer := steps + [step];
      assert longer[1..] == steps[1..] + [step] && longer[0] == steps[0];
      var first := Apply.ApplyStep(ctx, steps[0]).value;
      RunPush(first.ctx, steps[1..], step);
      var rest := Run(first.ctx, steps[1..]).value;
      var last := Apply.ApplyStep(rest.ctx, step);
      if last.Ok? {
        var a := last.value;
        assert first.maps + (rest.maps + a.maps) == (first.maps + rest.maps) + a.maps;
        assert (a.inverse + rest.inverse) + first.inverse == a.inverse + (rest.inverse + first.inverse);
      }
    }
  }

  lemma {:induction false} RunStops(ctx: Ctx, steps: seq<TransactionStep>, i: nat)
    requires i <= |steps| && Run(ctx, steps[..i]).Err?
    ensures Run(ctx, steps) == Run(ctx, steps[..i])
    decreases |steps|
  {
    hide Apply.ApplyStep;
    assert steps[..i][1..] == steps[1..][..i - 1];
    if Apply.ApplyStep(ctx, steps[0]).Ok? {
      RunStops(Apply.ApplyStep(ctx, steps[0]).value.ctx, steps[1..], i - 1);
    }
  }

  // The step loop of `apply_steps` on steps that keep the document a tree.
  method RunSteps(document: Ctx, steps: seq<TransactionStep>) returns (r: Result<Applied>)
    requires CtxOk(document)
    requires forall k :: 0 <= k < |steps| ==> WellTyped(steps[k]) && SelfContained(steps[k])
    ensures r == Run(document, steps)
    ensures r.Ok? ==> CtxOk(r.value.ctx)
  {
    hide CtxOk, WellTyped, SelfContained, Run, Apply.ApplyStep;
    var context := new ApplyContext(document);
    var maps: seq<StepMap> := [];
    var groups: seq<seq<TransactionStep>> := [];
    RunNothing(document);
    assert steps[..0] == [];
    for i := 0 to |steps|
      invariant fresh(context) && fresh(context.store)
      invariant CtxOk(context.State())
      invariant Run(document, steps[..i]) == Ok(Applied(context.State(), maps, ReversedFlat(groups)))
    {
      ghost var before := context.State();
      var step := context.ApplyStep(steps[i]);
      assert steps[..i + 1] == steps[..i] + [steps[i]];
      RunPush(document, steps[..i], steps[i]);
      if step.Err? {
        RunStops(document, steps, i + 1);
        return Err(step.error);
      }
      StepKeepsTree(before, steps[i]);
      maps := maps + step.value.0;
      groups := groups + [step.value.1];
    }
    assert steps[..|steps|] == steps;
    return Ok(Applied(Ctx(context.root, context.store.nodes, context.nextNodeId), maps, ReversedFlat(groups)));
  }

  lemma RunNothing(ctx: Ctx)
    ensures Run(ctx, []) == Ok(Applied(ctx, [], []))
  {}
}
