// Typed transaction steps (crates/xiaomu-core/src/transaction/step.rs): every
// step that edits text, marks, atoms, attributes, kinds or the block tree.
module Steps {
  import opened Text
  import opened Marks
  import opened Content
  import opened Nodes
  import opened Mapping

  datatype TransactionStep =
    | ReplaceTextStep(node: NodeId, start: nat, end: nat, text: seq<byte>)
    | ReplaceInlineTextStep(at: InlinePoint, end: nat, text: seq<byte>)
    | InsertInlineAtomStep(at: InlinePoint, atomKind: AtomKind, attrs: NodeAttrs, fallback: seq<byte>, marks: MarkSet)
    | RemoveInlineAtomStep(atom: NodeId)
    | SetInlineAtomMarksStep(atom: NodeId, marks: MarkSet)
    | RestoreInlineAtomStep(at: InlinePoint, payload: Node)
    | InsertNodeStep(parent: NodeId, index: nat, kind: NodeKind, attrs: NodeAttrs, content: NodeContent)
    | RestoreSubtreeStep(parent: NodeId, index: nat, root: NodeId, nodes: seq<Node>)
    | RemoveNodeStep(node: NodeId)
    | SetNodeAttrsStep(node: NodeId, attrs: NodeAttrs)
    | SetNodeKindStep(node: NodeId, kind: NodeKind)
    | AddMarkStep(node: NodeId, start: nat, end: nat, mark: Mark)
    | RemoveMarkStep(node: NodeId, start: nat, end: nat, markKind: MarkKind)
    | SplitNodeStep(node: NodeId, offset: nat)
    | SplitInlineNodeStep(at: InlinePoint)
    | RestoreJoinedNodeStep(at: InlinePoint, payload: Node)
    | JoinNodesStep(first: NodeId, second: NodeId)
}
