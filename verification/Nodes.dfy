// Document nodes, their per-node checks, and the child-kind rule
// (crates/xiaomu-core/src/document/node.rs, kind.rs, table_attrs.rs, store.rs).
module Nodes {
  import opened Wrappers
  import opened Text
  import opened Marks
  import opened Content

  // The largest node identity is one below this, as for a Rust `u64`.
  const U64_LIMIT: nat := 0x1_0000_0000_0000_0000

  datatype AttrValue =
    | NullValue
    | BoolValue(flag: bool)
    | IntegerValue(number: int)
    | StringValue(text: seq<byte>)
    | ListValue(items: seq<AttrValue>)
    | ObjectValue(entries: map<string, AttrValue>)

  type NodeAttrs = map<string, AttrValue>

  datatype AtomKind = Extension(key: seq<byte>) | HardBreak

  datatype NodeKind =
    | Document
    | Paragraph
    | Heading(level: nat)
    | Quote
    | BulletList
    | OrderedList
    | ListItem
    | TaskList
    | TaskItem
    | CodeBlock
    | HorizontalRule
    | Image
    | Table
    | TableRow
    | TableCell
    | TableHeader
    | InlineAtom(atom: AtomKind)
    | Custom(key: seq<byte>)
  {
    predicate IsTableCell() {
      TableCell? || TableHeader?
    }
  }

  datatype NodeContent =
    | Inline(inline: InlineContent)
    | Children(children: seq<NodeId>)
    | AtomPayload(fallback: seq<byte>, marks: MarkSet)
    | Atomic

  datatype Node = Node(id: NodeId, kind: NodeKind, attrs: NodeAttrs, content: NodeContent)

  type Store = map<NodeId, Node>

  // ----- table cell geometry

  datatype SpanAttr = MissingSpan | NullSpan | Span(size: nat)

  function ReadSpan(attrs: NodeAttrs, key: string): Result<SpanAttr> {
    if key !in attrs then Ok(MissingSpan)
    else match attrs[key]
      case NullValue => Ok(NullSpan)
      case IntegerValue(n) => if n > 0 then Ok(Span(n)) else Err(InvalidTableAttrs)
      case _ => Err(InvalidTableAttrs)
  }

  // Missing is one; an explicit null is invalid.
  function EffectiveSpan(span: SpanAttr): (r: Result<nat>)
    ensures r.Ok? && span != Span(0) ==> r.value > 0
  {
    match span
    case MissingSpan => Ok(1)
    case NullSpan => Err(InvalidTableAttrs)
    case Span(n) => Ok(n)
  }

  predicate IsWidth(value: AttrValue) {
    value.IntegerValue? && value.number >= 0
  }

  // `TableCellAttrs::read` followed by `validate_geometry`: (rowspan, colspan).
  function CellGeometry(attrs: NodeAttrs): Result<(nat, nat)> {
    var colspan :- ReadSpan(attrs, "colspan");
    var rowspan :- ReadSpan(attrs, "rowspan");
    :- Need("colwidth" !in attrs || attrs["colwidth"].NullValue? ||
            (attrs["colwidth"].ListValue? &&
             (EffectiveSpan(colspan).Ok? ==> |attrs["colwidth"].items| == EffectiveSpan(colspan).value) &&
             forall i :: 0 <= i < |attrs["colwidth"].items| ==> IsWidth(attrs["colwidth"].items[i])),
            InvalidTableAttrs);
    var columns :- EffectiveSpan(colspan);
    var rows :- EffectiveSpan(rowspan);
    Ok((rows, columns))
  }

  // ----- per-node validation

  predicate ShapeAllowed(kind: NodeKind, content: NodeContent) {
    match kind
    case Document => content.Children?
    case Quote => content.Children?
    case BulletList => content.Children?
    case OrderedList => content.Children?
    case ListItem => content.Children?
    case TaskList => content.Children?
    case TaskItem => content.Children?
    case Table => content.Children?
    case TableRow => content.Children?
    case TableCell => content.Children?
    case TableHeader => content.Children?
    case Paragraph => content.Inline?
    case Heading(_) => content.Inline?
    case CodeBlock => content.Inline?
    case InlineAtom(_) => content.AtomPayload?
    case HorizontalRule => content.Atomic?
    case Image => content.Atomic?
    case Custom(_) => true
  }

  const LF: seq<byte> := [10]

  // `Node::validate`.
  function Validate(node: Node): Outcome {
    if !ShapeAllowed(node.kind, node.content) then Fail(InvalidNodeContent)
    else if node.kind.IsTableCell() && CellGeometry(node.attrs).Err? then Fail(CellGeometry(node.attrs).error)
    else if node.kind.TaskItem? && "checked" in node.attrs &&
            !node.attrs["checked"].NullValue? && !node.attrs["checked"].BoolValue? then Fail(InvalidTaskItemChecked)
    else if node.kind.InlineAtom? && node.kind.atom.HardBreak? && node.content.AtomPayload? &&
            (node.attrs != map[] || node.content.fallback != LF) then Fail(InvalidHardBreak)
    else Pass
  }

  // `Node::new`.
  function NewNode(id: NodeId, kind: NodeKind, attrs: NodeAttrs, content: NodeContent): (r: Result<Node>)
    ensures r.Ok? <==> Validate(Node(id, kind, attrs, content)).Pass?
    ensures r.Ok? ==> r.value == Node(id, kind, attrs, content)
  {
    var node := Node(id, kind, attrs, content);
    :- Validate(node);
    Ok(node)
  }

  predicate IsBlockChild(child: NodeKind) {
    !(child.Document? || child.ListItem? || child.TaskItem? || child.TableRow? ||
      child.TableCell? || child.TableHeader? || child.InlineAtom?)
  }

  predicate AllowsChild(parent: NodeKind, child: NodeKind) {
    match parent
    case BulletList => child.ListItem?
    case OrderedList => child.ListItem?
    case TaskList => child.TaskItem?
    case Table => child.TableRow?
    case TableRow => child.IsTableCell()
    case TaskItem => IsBlockChild(child)
    case Document => IsBlockChild(child)
    case Quote => IsBlockChild(child)
    case ListItem => IsBlockChild(child)
    case TableCell => IsBlockChild(child)
    case TableHeader => IsBlockChild(child)
    case Custom(_) => !child.InlineAtom?
    case Paragraph => false
    case Heading(_) => false
    case CodeBlock => false
    case HorizontalRule => false
    case Image => false
    case InlineAtom(_) => false
  }

  // Outgoing tree edges of a node: child references, or the placed atoms.
  function References(node: Node): seq<NodeId> {
    match node.content
    case Children(children) => children
    case Inline(inline) => Identities(inline.atoms)
    case AtomPayload(_, _) => []
    case Atomic => []
  }

  // What every stored node satisfies on its own.
  predicate NodeOk(node: Node) {
    && Validate(node).Pass?
    && (node.content.Inline? ==> WfContent(node.content.inline))
    && (node.content.AtomPayload? ==> node.content.marks.Valid())
  }
}
