// What each transaction step does to the working state: the specification that
// the engine's methods are proved against
// (crates/xiaomu-core/src/transaction/apply.rs and apply/atom.rs,
// apply/structure.rs, apply/subtree_restore.rs).
module Apply {
  import opened Wrappers
  import opened Text
  import opened Marks
  import opened Content
  import opened InlineEdit
  import opened Flat
  import opened InlineLaws
  import opened Nodes
  import opened InputMarks
  import opened Mapping
  import opened Steps
  import opened Inverse
  import opened InlineUndo
  import opened Structure
  import opened Tree
  import opened WorkingStore

  // The working state of one application pass.
  datatype Ctx = Ctx(root: NodeId, store: Store, nextId: nat)

  datatype Applied = Applied(ctx: Ctx, maps: seq<StepMap>, inverse: seq<TransactionStep>)

  // Every intermediate state of a run: a tree, with all identities below the
  // next one, which is a `u64`.
  ghost predicate CtxOk(ctx: Ctx) {
    && IsTree(ctx.store, ctx.root)
    && (forall id :: id in ctx.store ==> id < ctx.nextId)
    && ctx.nextId < U64_LIMIT
  }

  lemma IdBelow(ctx: Ctx, id: NodeId)
    requires CtxOk(ctx) && id in ctx.store
    ensures id < ctx.nextId < U64_LIMIT
  {
    hide IsTree;
  }

  // ----- reading the store

  function InlineOf(store: Store, id: NodeId): Result<InlineContent> {
    if id !in store then Err(UnknownNode)
    else
      :- Need(store[id].content.Inline?, InvalidTransaction);
      Ok(store[id].content.inline)
  }

  function ChildrenOf(store: Store, id: NodeId): Result<seq<NodeId>> {
    if id !in store then Err(UnknownNode)
    else
      :- Need(store[id].content.Children?, InvalidTransaction);
      Ok(store[id].content.children)
  }

  // The structural parent; at most one in a tree.
  ghost function ParentOf(store: Store, child: NodeId): Result<NodeId> {
    if exists p :: ChildEdge(store, p, child) then
      var p :| ChildEdge(store, p, child);
      Ok(p)
    else Err(UnknownNode)
  }

  ghost predicate PlacesAtom(store: Store, parent: NodeId, atom: NodeId) {
    parent in store && store[parent].content.Inline? && Edge(store, parent, atom)
  }

  // The inline parent of an atom; at most one in a tree.
  ghost function AtomParentOf(store: Store, atom: NodeId): Result<NodeId> {
    if exists p :: PlacesAtom(store, p, atom) then
      var p :| PlacesAtom(store, p, atom);
      Ok(p)
    else Err(UnknownNode)
  }

  function PositionOf(ids: seq<NodeId>, id: NodeId): (r: Option<nat>)
    ensures r.Some? <==> id in ids
    ensures r.Some? ==> r.value < |ids| && ids[r.value] == id && forall j :: 0 <= j < r.value ==> ids[j] != id
  {
    if ids == [] then None
    else if ids[0] == id then Some(0)
    else
      assert ids == [ids[0]] + ids[1..];
      var rest := PositionOf(ids[1..], id);
      if rest.Some? then
        assert ids[..rest.value + 1] == [ids[0]] + ids[1..][..rest.value];
        Some(rest.value + 1)
      else None
  }

  function WithoutId(ids: seq<NodeId>, id: NodeId): seq<NodeId> {
    if ids == [] then []
    else (if ids[0] == id then [] else [ids[0]]) + WithoutId(ids[1..], id)
  }

  function InsertId(ids: seq<NodeId>, index: nat, id: NodeId): seq<NodeId>
    requires index <= |ids|
  {
    ids[..index] + [id] + ids[index..]
  }

  // ----- writing the store

  // `rewrite_node`: same identity and kind, new attributes and content.
  function Rewrite(store: Store, id: NodeId, attrs: NodeAttrs, content: NodeContent): Result<Store> {
    if id !in store then Err(UnknownNode)
    else
      var node :- NewNode(store[id].id, store[id].kind, attrs, content);
      Ok(store[node.id := node])
  }

  function RewriteContent(store: Store, id: NodeId, content: NodeContent): Result<Store> {
    if id !in store then Err(UnknownNode)
    else Rewrite(store, id, store[id].attrs, content)
  }

  // `allocate_node`.
  function Allocate(ctx: Ctx, kind: NodeKind, attrs: NodeAttrs, content: NodeContent): Result<Ctx> {
    if ctx.nextId + 1 >= U64_LIMIT then Err(NodeIdExhausted)
    else
      var node :- NewNode(ctx.nextId, kind, attrs, content);
      :- Need(ctx.nextId !in ctx.store, DuplicateChildReference);
      Ok(ctx.(store := ctx.store[ctx.nextId := node], nextId := ctx.nextId + 1))
  }

  // `next_node_id.max(id + 1)`, checked.
  function RaiseNext(nextId: nat, id: NodeId): Result<nat> {
    if id + 1 >= U64_LIMIT then Err(NodeIdExhausted)
    else Ok(if nextId < id + 1 then id + 1 else nextId)
  }

  // ----- text and mark steps

  function ApplyReplaceText(ctx: Ctx, node: NodeId, start: nat, end: nat, text: seq<byte>): Result<Applied> {
    var content :- InlineOf(ctx.store, node);
    var next :- TextReplaced(content, start, end, text);
    var inverse := ReplaceTextInverse(node, start, |text|, Inherited(Chars(next.runs), start),
        SpansOf(content.runs, start, end));
    var store :- RewriteContent(ctx.store, node, Inline(next));
    Ok(Applied(ctx.(store := store), [TextReplacedMap(node, start, end, |text|)], inverse))
  }

  function ApplyMarkChange(ctx: Ctx, node: NodeId, start: nat, end: nat, change: MarkChange): Result<Applied> {
    var content :- InlineOf(ctx.store, node);
    var next :- MarksChanged(content, start, end, change);
    var inverse := MarkChangeInverse(node, start, end, change, SpansOf(content.runs, start, end));
    var store :- RewriteContent(ctx.store, node, Inline(next));
    Ok(Applied(ctx.(store := store), [], inverse))
  }

  function ApplyReplaceInlineText(ctx: Ctx, at: InlinePoint, end: nat, text: seq<byte>): Result<Applied> {
    var content :- InlineOf(ctx.store, at.node);
    var next :- EditInline(ctx.store, content, ReplaceInlineTextStep(at, end, text));
    var restored :- InheritedMarks(ctx.store, next, CaretOf(at));
    var inverse := ReplaceInlineTextInverse(at, |text|, restored, SpansOf(content.runs, at.offset, end));
    var store :- RewriteContent(ctx.store, at.node, Inline(next));
    Ok(Applied(ctx.(store := store), [InlineTextReplacedMap(at.node, at.offset, end, |text|, at.ordinal)], inverse))
  }

  // ----- payload steps

  function ApplySetInlineAtomMarks(ctx: Ctx, atom: NodeId, marks: MarkSet): Result<Applied> {
    if atom !in ctx.store then Err(UnknownNode)
    else
      var content := ctx.store[atom].content;
      :- Need(content.AtomPayload?, InvalidTransaction);
      var store :- RewriteContent(ctx.store, atom, content.(marks := marks));
      Ok(Applied(ctx.(store := store), [], [SetInlineAtomMarksStep(atom, content.marks)]))
  }

  function ApplySetNodeAttrs(ctx: Ctx, node: NodeId, attrs: NodeAttrs): Result<Applied> {
    if node !in ctx.store then Err(UnknownNode)
    else
      var store :- Rewrite(ctx.store, node, attrs, ctx.store[node].content);
      Ok(Applied(ctx.(store := store), [], [SetNodeAttrsStep(node, ctx.store[node].attrs)]))
  }

  ghost function ApplySetNodeKind(ctx: Ctx, node: NodeId, kind: NodeKind): Result<Applied> {
    if node !in ctx.store then Err(UnknownNode)
    else
      var current := ctx.store[node];
      :- Need(current.id != ctx.root, InvalidRootNode);
      var parent :- ParentOf(ctx.store, node);
      :- Need(parent in ctx.store, UnknownNode);
      :- Need(AllowsChild(ctx.store[parent].kind, kind), InvalidChildKind);
      var rewritten :- NewNode(current.id, kind, current.attrs, current.content);
      Ok(Applied(ctx.(store := ctx.store[node := rewritten]), [], [SetNodeKindStep(node, current.kind)]))
  }

  // ----- inserting and removing blocks

  function ApplyInsertNode(ctx: Ctx, parent: NodeId, index: nat, kind: NodeKind, attrs: NodeAttrs, content: NodeContent)
      : Result<Applied> {
    var children :- ChildrenOf(ctx.store, parent);
    :- Need(index <= |children|, InvalidTransaction);
    var grown :- Allocate(ctx, kind, attrs, content);
    var id := ctx.nextId;
    var store :- RewriteContent(grown.store, parent, Children(InsertId(children, index, id)));
    Ok(Applied(grown.(store := store), [NodeInserted(parent, index, id)], [RemoveNodeStep(id)]))
  }

  function Largest(s: set<nat>): (m: nat)
    requires s != {}
    ensures m in s && forall x :: x in s ==> x <= m
  {
    LargestExists(s);
    var top :| top in s && forall x :: x in s ==> x <= top;
    top
  }

  lemma {:induction false} LargestExists(s: set<nat>)
    requires s != {}
    ensures exists m :: m in s && forall x :: x in s ==> x <= m
  {
    var y :| y in s;
    if s != {y} {
      var rest := s - {y};
      assert rest != {};
      LargestExists(rest);
      var m :| m in rest && forall x :: x in rest ==> x <= m;
      var top := if m < y then y else m;
      forall x | x in s
        ensures x <= top
      {
        assert x == y || x in rest;
      }
    }
  }

  // Iteration order of a `BTreeSet`.
  function SortedIds(s: set<NodeId>): (ids: seq<NodeId>)
    ensures forall x :: x in ids <==> x in s
    ensures forall i, j :: 0 <= i < j < |ids| ==> ids[i] < ids[j]
    decreases |s|
  {
    if s == {} then []
    else
      var m := Largest(s);
      var rest := SortedIds(s - {m});
      AscendPush(rest, m);
      rest + [m]
  }

  lemma AscendPush(ids: seq<NodeId>, m: NodeId)
    requires forall i, j :: 0 <= i < j < |ids| ==> ids[i] < ids[j]
    requires forall x :: x in ids ==> x < m
    ensures forall i, j :: 0 <= i < j < |ids + [m]| ==> (ids + [m])[i] < (ids + [m])[j]
  {
    assert forall i :: 0 <= i < |ids| ==> ids[i] in ids;
  }

  function PayloadsOf(store: Store, ids: seq<NodeId>): seq<Node> {
    if ids == [] then []
    else PayloadsOf(store, ids[..|ids| - 1])
         + if ids[|ids| - 1] in store then [store[ids[|ids| - 1]]] else []
  }

  ghost function ApplyRemoveNode(ctx: Ctx, node: NodeId): Result<Applied> {
    if node == ctx.root then Err(InvalidTransaction)
    else
      var parent :- ParentOf(ctx.store, node);
      var subtree := Subtree(ctx.store, node);
      var payloads := PayloadsOf(ctx.store, SortedIds(subtree));
      var children :- ChildrenOf(ctx.store, parent);
      :- Need(node in children, InvalidTransaction);
      var index := PositionOf(children, node).value;
      var store :- RewriteContent(ctx.store, parent, Children(WithoutId(children, node)));
      Ok(Applied(ctx.(store := store - subtree), [NodeRemoved(parent, index, subtree)],
                 [RestoreSubtreeStep(parent, index, node, payloads)]))
  }

  // The identity checks of a restore, in order, and the raised allocator.
  function CheckRestored(nodes: seq<Node>, nextId: nat): Result<nat> {
    if nodes == [] then Ok(nextId)
    else
      var front := nodes[..|nodes| - 1];
      var last := nodes[|nodes| - 1];
      var next :- CheckRestored(front, nextId);
      :- Need(forall i :: 0 <= i < |front| ==> front[i].id != last.id, DuplicateChildReference);
      RaiseNext(next, last.id)
  }

  function PutNodes(store: Store, nodes: seq<Node>): Store {
    if nodes == [] then store
    else PutNodes(store, nodes[..|nodes| - 1])[nodes[|nodes| - 1].id := nodes[|nodes| - 1]]
  }

  function ApplyRestoreSubtree(ctx: Ctx, parent: NodeId, index: nat, root: NodeId, nodes: seq<Node>): Result<Applied> {
    if !(root in Ids(nodes) && forall i :: 0 <= i < |nodes| ==> nodes[i].id !in ctx.store) then Err(InvalidTransaction)
    else
      var children :- ChildrenOf(ctx.store, parent);
      :- Need(index <= |children|, InvalidTransaction);
      var nextId :- CheckRestored(nodes, ctx.nextId);
      var previous := ctx.store[parent];
      var updated :- NewNode(parent, previous.kind, previous.attrs, Children(InsertId(children, index, root)));
      Ok(Applied(ctx.(store := PutNodes(ctx.store, nodes)[parent := updated], nextId := nextId),
                 [NodeInserted(parent, index, root)], [RemoveNodeStep(root)]))
  }

  // ----- inline atoms

  function GapCheck(store: Store, at: InlinePoint): Outcome {
    match InlineOf(store, at.node)
    case Err(error) => Fail(error)
    case Ok(content) =>
      if OffsetCheck(Chars(content.runs), at.offset).Fail? then OffsetCheck(Chars(content.runs), at.offset)
      else if at.ordinal > CountAt(content.atoms, at.offset) then Fail(InvalidSelection)
      else Pass
  }

  function Attach(store: Store, at: InlinePoint, atom: NodeId): Result<Store> {
    var content :- InlineOf(store, at.node);
    var next :- AtomAttached(content, CaretOf(at), atom);
    RewriteContent(store, at.node, Inline(next))
  }

  function ApplyInsertInlineAtom(ctx: Ctx, at: InlinePoint, atomKind: AtomKind, attrs: NodeAttrs, fallback: seq<byte>,
                                 marks: MarkSet)
      : Result<Applied> {
    var check := GapCheck(ctx.store, at);
    if check.Fail? then Err(check.error)
    else
      var grown :- Allocate(ctx, InlineAtom(atomKind), attrs, AtomPayload(fallback, marks));
      var id := ctx.nextId;
      var store :- Attach(grown.store, at, id);
      Ok(Applied(grown.(store := store), [InlineAtomInserted(at.node, at.offset, at.ordinal, id)],
                 [RemoveInlineAtomStep(id)]))
  }

  ghost function ApplyRemoveInlineAtom(ctx: Ctx, atom: NodeId): Result<Applied> {
    if atom !in ctx.store then Err(UnknownNode)
    else
      var payload := ctx.store[atom];
      :- Need(payload.kind.InlineAtom?, InvalidTransaction);
      var parent :- AtomParentOf(ctx.store, atom);
      var content :- InlineOf(ctx.store, parent);
      :- Need(atom in Identities(content.atoms), UnknownNode);
      var j := PositionOf(Identities(content.atoms), atom).value;
      var offset := content.atoms[j].offset;
      var ordinal := CountAt(content.atoms[..j], offset);
      var store :- RewriteContent(ctx.store, parent, Inline(AtomDetached(content, j)));
      Ok(Applied(ctx.(store := store - {atom}), [InlineAtomRemoved(parent, offset, ordinal, atom)],
                 [RestoreInlineAtomStep(InlinePoint(parent, offset, ordinal, BeforeGlyph), payload)]))
  }

  function ApplyRestoreInlineAtom(ctx: Ctx, at: InlinePoint, payload: Node): Result<Applied> {
    if !(payload.id !in ctx.store && payload.kind.InlineAtom?) then Err(InvalidTransaction)
    else
      :- Need(payload.content.AtomPayload?, InvalidTransaction);
      :- GapCheck(ctx.store, at);
      var nextId :- RaiseNext(ctx.nextId, payload.id);
      var store :- Attach(ctx.store[payload.id := payload], at, payload.id);
      Ok(Applied(ctx.(store := store, nextId := nextId),
          [InlineAtomInserted(at.node, at.offset, at.ordinal, payload.id)],
                 [RemoveInlineAtomStep(payload.id)]))
  }

  // ----- splitting and joining

  // The shared body of the split steps: `restored` names the returning sibling.
  ghost function SplitInline(ctx: Ctx, at: InlinePoint, restored: Option<Node>, mixed: bool): Result<Applied> {
    var content :- InlineOf(ctx.store, at.node);
    var halves :- SplitAt(content, CaretOf(at));
    var parent :- ParentOf(ctx.store, at.node);
    var children :- ChildrenOf(ctx.store, parent);
    :- Need(at.node in children, InvalidTransaction);
    var index := PositionOf(children, at.node).value + 1;
    var grown :- GrowTail(ctx, at.node, halves.1, restored);
    var tailId := if restored.Some? then restored.value.id else ctx.nextId;
    var headed :- RewriteContent(grown.store, at.node, Inline(halves.0));
    var store :- RewriteContent(headed, parent, Children(InsertId(children, index, tailId)));
    var stepMap := if mixed then InlineNodeSplit(parent, index, at, tailId)
                   else NodeSplit(parent, index, at.node, at.offset, tailId);
    Ok(Applied(grown.(store := store), [stepMap], [JoinNodesStep(at.node, tailId)]))
  }

  // Stores the tail: a saved sibling with exactly this content, or a fresh one.
  function GrowTail(ctx: Ctx, node: NodeId, tail: InlineContent, restored: Option<Node>): Result<Ctx> {
    if node !in ctx.store then Err(UnknownNode)
    else
      if restored.Some? then
        :- Need(restored.value.content == Inline(tail), InvalidTransaction);
        var nextId :- RaiseNext(ctx.nextId, restored.value.id);
        :- Need(restored.value.id !in ctx.store, DuplicateChildReference);
        Ok(ctx.(store := ctx.store[restored.value.id := restored.value], nextId := nextId))
      else
        Allocate(ctx, ctx.store[node].kind, ctx.store[node].attrs, Inline(tail))
  }

  ghost function ApplySplitNode(ctx: Ctx, node: NodeId, offset: nat): Result<Applied> {
    var content :- InlineOf(ctx.store, node);
    :- OffsetCheck(Chars(content.runs), offset);
    :- Need(content.atoms == [], InvalidTransaction);
    SplitInline(ctx, InlinePoint(node, offset, 0, BeforeGlyph), None, false)
  }

  ghost function ApplyRestoreJoinedNode(ctx: Ctx, at: InlinePoint, payload: Node): Result<Applied> {
    if !(payload.id !in ctx.store && payload.content.Inline?) then Err(InvalidTransaction)
    else
      var content :- InlineOf(ctx.store, at.node);
      SplitInline(ctx, at, Some(payload), content.atoms != [])
  }

  ghost function ApplyJoinNodes(ctx: Ctx, first: NodeId, second: NodeId): Result<Applied> {
    var a :- InlineOf(ctx.store, first);
    var b :- InlineOf(ctx.store, second);
    :- Need(first != second, InvalidTransaction);
    var parent :- ParentOf(ctx.store, first);
    var children :- ChildrenOf(ctx.store, parent);
    :- Need(first in children, InvalidTransaction);
    var index := PositionOf(children, first).value;
    :- Need(index + 1 < |children| && children[index + 1] == second, InvalidTransaction);
    var merged :- Joined(a, b);
    var absorbed := ctx.store[second];
    var headed :- RewriteContent(ctx.store, first, Inline(merged));
    var store :- RewriteContent(headed, parent, Children(children[..index + 1] + children[index + 2..]));
    var gap := JoinGap(a);
    var stepMap := if a.atoms != [] || b.atoms != []
                   then InlineNodeJoined(parent, index + 1, first, second, gap.offset, gap.ordinal)
                   else NodeJoined(parent, index + 1, first, second, gap.offset, {second});
    Ok(Applied(ctx.(store := store - {second}), [stepMap],
               [RestoreJoinedNodeStep(InlinePoint(first, gap.offset, gap.ordinal, BeforeGlyph), absorbed)]))
  }

  // ----- one step, and a run

  ghost function ApplyStep(ctx: Ctx, step: TransactionStep): Result<Applied> {
    match step
    case ReplaceTextStep(node, start, end, text) => ApplyReplaceText(ctx, node, start, end, text)
    case ReplaceInlineTextStep(at, end, text) => ApplyReplaceInlineText(ctx, at, end, text)
    case InsertInlineAtomStep(at, kind, attrs, fallback, marks) => ApplyInsertInlineAtom(ctx, at, kind, attrs,
        fallback, marks)
    case RemoveInlineAtomStep(atom) => ApplyRemoveInlineAtom(ctx, atom)
    case SetInlineAtomMarksStep(atom, marks) => ApplySetInlineAtomMarks(ctx, atom, marks)
    case RestoreInlineAtomStep(at, payload) => ApplyRestoreInlineAtom(ctx, at, payload)
    case InsertNodeStep(parent, index, kind, attrs, content) => ApplyInsertNode(ctx, parent, index, kind, attrs,
        content)
    case RestoreSubtreeStep(parent, index, root, nodes) => ApplyRestoreSubtree(ctx, parent, index, root, nodes)
    case RemoveNodeStep(node) => ApplyRemoveNode(ctx, node)
    case SetNodeAttrsStep(node, attrs) => ApplySetNodeAttrs(ctx, node, attrs)
    case SetNodeKindStep(node, kind) => ApplySetNodeKind(ctx, node, kind)
    case AddMarkStep(node, start, end, mark) => ApplyMarkChange(ctx, node, start, end, Add(mark))
    case RemoveMarkStep(node, start, end, kind) => ApplyMarkChange(ctx, node, start, end, Remove(kind))
    case SplitNodeStep(node, offset) => ApplySplitNode(ctx, node, offset)
    case SplitInlineNodeStep(at) => SplitInline(ctx, at, None, true)
    case RestoreJoinedNodeStep(at, payload) => ApplyRestoreJoinedNode(ctx, at, payload)
    case JoinNodesStep(first, second) => ApplyJoinNodes(ctx, first, second)
  }

  // The steps in order; inverse groups are kept reversed and flattened.
  ghost function Run(ctx: Ctx, steps: seq<TransactionStep>): Result<Applied>
    decreases |steps|
  {
    if steps == [] then Ok(Applied(ctx, [], []))
    else
      var first :- ApplyStep(ctx, steps[0]);
      var rest :- Run(first.ctx, steps[1..]);
      Ok(Applied(rest.ctx, first.maps + rest.maps, rest.inverse + first.inverse))
  }
}
