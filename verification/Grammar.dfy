// The document grammar, read the other way round: for each content the kinds
// that hold it, for each kind the places it may stand
// (crates/xiaomu-core/src/document/node.rs, store.rs:273-311).
module Grammar {
  import opened Wrappers
  import opened Content
  import opened Nodes
  import opened Tree
  import opened Tiling
  import opened TableGrid
  import opened TableReading
  import opened Snapshot

  // ----- one node

  // The kinds a content belongs to; an extension's own kind takes any.
  predicate HeldBy(content: NodeContent, kind: NodeKind) {
    kind.Custom? ||
    match content
    case Inline(_) => kind == Paragraph || kind.Heading? || kind == CodeBlock
    case AtomPayload(_, _) => kind.InlineAtom?
    case Atomic => kind == HorizontalRule || kind == Image
    case Children(_) =>
      !(kind == Paragraph || kind.Heading? || kind == CodeBlock || kind.InlineAtom? || kind == HorizontalRule
        || kind == Image)
  }

  // A check box is unset, null or a truth value.
  predicate CheckStated(attrs: NodeAttrs) {
    "checked" in attrs ==> attrs["checked"].NullValue? || attrs["checked"].BoolValue?
  }

  predicate NodeStands(node: Node) {
    && HeldBy(node.content, node.kind)
    && (node.kind == TableCell || node.kind == TableHeader ==> GeometryStated(node.attrs))
    && (node.kind == TaskItem ==> CheckStated(node.attrs))
    && (node.kind == InlineAtom(HardBreak) ==> node.attrs == map[] && node.content.fallback == [10])
  }

  // A node is valid exactly when it stands, and otherwise the first rule it
  // breaks names the error.
  lemma ValidNodes(node: Node)
    ensures Validate(node).Pass? <==> NodeStands(node)
    ensures Validate(node).Fail? ==>
      Validate(node).error
      == if !HeldBy(node.content, node.kind) then InvalidNodeContent
         else if node.kind == TableCell || node.kind == TableHeader then InvalidTableAttrs
         else if node.kind == TaskItem then InvalidTaskItemChecked
         else InvalidHardBreak
  {
    hide CellGeometry, GeometryStated;
    GeometryRead(node.attrs);
  }

  // ----- one edge

  // The kinds that take ordinary blocks.
  predicate TakesBlocks(parent: NodeKind) {
    parent == Document || parent == Quote || parent == ListItem || parent == TaskItem || parent == TableCell
    || parent == TableHeader
  }

  // Where a kind may stand as a child.
  predicate StandsBelow(child: NodeKind, parent: NodeKind) {
    match child
    case InlineAtom(_) => false
    case Document => parent.Custom?
    case ListItem => parent.Custom? || parent == BulletList || parent == OrderedList
    case TaskItem => parent.Custom? || parent == TaskList
    case TableRow => parent.Custom? || parent == Table
    case TableCell => parent.Custom? || parent == TableRow
    case TableHeader => parent.Custom? || parent == TableRow
    case _ => parent.Custom? || TakesBlocks(parent)
  }

  lemma ChildRule(parent: NodeKind, child: NodeKind)
    ensures AllowsChild(parent, child) <==> StandsBelow(child, parent)
  {}

  // ----- whole documents

  // A table's rows and cells are stored and readable, no cell is listed twice,
  // and the cells tile the rows at the first row's width.
  ghost predicate TableStands(store: Store, table: NodeId)
    requires table in store && store[table].content.Children?
  {
    var rows := store[table].content.children;
    && rows != [] && RowsStored(store, rows)
    && (forall r, i, c :: Stands(store, rows, r, i, c) ==> StoredCell(store, c))
    && FirstWidth(store, rows) > 0 && DistinctRefs(RefsOf(store, rows))
    && exists tiling :: Tiles(ShapesOf(store, RefsOf(store, rows)), tiling, |rows|, FirstWidth(store, rows))
  }

  lemma TableRule(store: Store, table: NodeId)
    requires table in store && store[table].kind == Table && store[table].content.Children?
    ensures TableShaped(store, table) <==> TableStands(store, table)
  {
    hide Readable, RowsStored, Stands, StoredCell, RefsOf, FirstWidth, ShapesOf, Tiles, DistinctRefs;
    ReadableMeans(store, store[table].content.children);
  }

  ghost predicate NodesStand(store: Store) {
    forall id :: id in store ==> NodeStands(store[id])
  }

  ghost predicate EdgesStand(store: Store) {
    forall p, c :: ChildEdge(store, p, c) ==> c in store && StandsBelow(store[c].kind, store[p].kind)
  }

  ghost predicate CellsHold(store: Store) {
    forall id :: id in store && (store[id].kind == TableCell || store[id].kind == TableHeader) ==>
      store[id].content != Children([])
  }

  ghost predicate TablesStand(store: Store) {
    forall id :: id in store && store[id].kind == Table ==> store[id].content.Children? && TableStands(store, id)
  }

  lemma {:induction false} NodesRule(store: Store)
    ensures NodesValid(store) <==> NodesStand(store)
  {
    hide Validate, NodeStands;
    forall id | id in store
      ensures Validate(store[id]).Pass? <==> NodeStands(store[id])
    {
      ValidNodes(store[id]);
    }
  }

  lemma {:induction false} EdgesRule(store: Store)
    requires EdgesClosed(store)
    ensures KindsAllowed(store) <==> EdgesStand(store) && AtomsPlaced(store)
  {
    hide AllowsChild, StandsBelow, Distinct, AtomsPlaced;
    forall p, c | ChildEdge(store, p, c)
      ensures c in store
      ensures AllowsChild(store[p].kind, store[c].kind) <==> StandsBelow(store[c].kind, store[p].kind)
    {
      assert Edge(store, p, c);
      ChildRule(store[p].kind, store[c].kind);
    }
  }

  lemma {:induction false} TablesRule(store: Store)
    requires NodesStand(store)
    ensures TablesValid(store) <==>
      TablesStand(store) && CellsHold(store)
      && SpentOn(store, store.Keys).slots <= 1_000_000 && SpentOn(store, store.Keys).cells <= 100_000
      && SpentOn(store, store.Keys).bytes <= 67_108_864
  {
    hide TableShaped, TableStands, SpentOn, NodeStands;
    forall id | id in store
      ensures store[id].kind == Table ==>
        store[id].content.Children? && (TableShaped(store, id) <==> TableStands(store, id))
      ensures IsEmptyCell(store[id]) <==>
        (store[id].kind == TableCell || store[id].kind == TableHeader) && store[id].content == Children([])
    {
      TablesHoldChildren(store[id]);
      if store[id].kind == Table {
        TableRule(store, id);
      }
    }
  }

  lemma TablesHoldChildren(node: Node)
    requires NodeStands(node)
    ensures node.kind == Table || node.kind == TableCell || node.kind == TableHeader ==> node.content.Children?
  {}

  // A store is a document exactly when everything is reached from a document
  // root by one reference each, every node and every edge stands, no cell is
  // empty, every table stands, and the tables together stay under the caps.
  lemma {:induction false} DocumentRule(store: Store, root: NodeId)
    ensures ValidTree(root, store) <==>
      && RootedReachable(store, root) && store[root].kind == Document
      && NodesStand(store) && EdgesStand(store) && AtomsPlaced(store) && CellsHold(store) && TablesStand(store)
      && SpentOn(store, store.Keys).slots <= 1_000_000 && SpentOn(store, store.Keys).cells <= 100_000
      && SpentOn(store, store.Keys).bytes <= 67_108_864
  {
    hide NodesStand, EdgesStand, AtomsPlaced, CellsHold, TablesStand, SpentOn, NodesValid, KindsAllowed, TablesValid;
    hide EdgesClosed, OneParent, Reaches;
    NodesRule(store);
    if RootedReachable(store, root) {
      EdgesRule(store);
      if NodesStand(store) {
        TablesRule(store);
      }
    }
  }
}
