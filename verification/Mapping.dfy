// Position mapping across applied steps
// (crates/xiaomu-core/src/mapping.rs and inline_mapping.rs).
module Mapping {
  import opened Content

  datatype Affinity = BeforeGlyph | AfterGlyph

  datatype TextPoint = TextPoint(node: NodeId, offset: nat, affinity: Affinity)

  datatype InlinePoint = InlinePoint(node: NodeId, offset: nat, ordinal: nat, affinity: Affinity)

  // A boundary between children of one parent.
  datatype NodeGap = NodeGap(parent: NodeId, index: nat)

  datatype MapBias = Start | End

  datatype MappedPosition<+T> = Mapped(position: T) | Deleted

  datatype StepMap =
    | TextReplacedMap(node: NodeId, start: nat, end: nat, len: nat)
    | InlineTextReplacedMap(node: NodeId, start: nat, end: nat, len: nat, seam: nat)
    | InlineAtomInserted(parent: NodeId, offset: nat, ordinal: nat, inserted: NodeId)
    | InlineAtomRemoved(parent: NodeId, offset: nat, ordinal: nat, removedAtom: NodeId)
    | NodeInserted(parent: NodeId, index: nat, inserted: NodeId)
    | NodeRemoved(parent: NodeId, index: nat, removed: set<NodeId>)
    | NodeReparented(node: NodeId, oldParent: NodeId, oldIndex: nat, newParent: NodeId, newIndex: nat)
    | TableCellMerged(row: NodeId, index: nat, survivor: NodeId, absorbed: NodeId, at: nat, childCount: nat)
    | TableCellRestored(row: NodeId, index: nat, survivor: NodeId, restored: NodeId, at: nat, childCount: nat)
    | NodeSplit(parent: NodeId, index: nat, node: NodeId, at: nat, inserted: NodeId)
    | InlineNodeSplit(parent: NodeId, index: nat, gap: InlinePoint, inserted: NodeId)
    | InlineNodeJoined(parent: NodeId, index: nat, first: NodeId, second: NodeId, firstLen: nat, seam: nat)
    | NodeJoined(parent: NodeId, index: nat, first: NodeId, second: NodeId, firstLen: nat, removed: set<NodeId>)

  // ----- text points

  function MapTextPointOverRange(point: TextPoint, node: NodeId, start: nat, end: nat, len: nat, bias: MapBias)
      : MappedPosition<TextPoint>
    requires start <= end
  {
    if point.node != node then Mapped(point)
    else
      var offset := point.offset;
      var mapped :=
        if offset < start || (start == end && offset == start) then
          if start == end && offset == start && bias == End then start + len else offset
        else if offset > end || (offset == end && offset > start) then offset - (end - start) + len
        else if bias == Start then start
        else start + len;
      Mapped(TextPoint(point.node, mapped, point.affinity))
  }

  // Replaced ranges are ordered, as `TextRange` guarantees.
  predicate OrderedRange(m: StepMap) {
    (m.TextReplacedMap? || m.InlineTextReplacedMap?) ==> m.start <= m.end
  }

  function MapTextPoint(m: StepMap, point: TextPoint, bias: MapBias): MappedPosition<TextPoint>
    requires OrderedRange(m)
  {
    match m
    case TextReplacedMap(node, start, end, len) => MapTextPointOverRange(point, node, start, end, len, bias)
    case InlineTextReplacedMap(node, start, end, len, _) => MapTextPointOverRange(point, node, start, end, len, bias)
    case NodeSplit(_, _, node, at, inserted) =>
      if point.node != node then Mapped(point)
      else if point.offset > at || (point.offset == at && bias == End) then
        Mapped(TextPoint(inserted, point.offset - at, point.affinity))
      else Mapped(TextPoint(node, point.offset, point.affinity))
    case InlineNodeSplit(_, _, gap, inserted) =>
      if point.node != gap.node then Mapped(point)
      else if point.offset > gap.offset || (point.offset == gap.offset && gap.ordinal == 0 && bias == End) then
        Mapped(TextPoint(inserted, point.offset - gap.offset, point.affinity))
      else Mapped(TextPoint(point.node, point.offset, point.affinity))
    case NodeJoined(_, _, first, second, firstLen, _) =>
      if point.node != second then Mapped(point)
      else Mapped(TextPoint(first, point.offset + firstLen, point.affinity))
    case InlineNodeJoined(_, _, first, second, firstLen, _) =>
      if point.node != second then Mapped(point)
      else Mapped(TextPoint(first, point.offset + firstLen, point.affinity))
    case NodeRemoved(_, _, removed) =>
      if point.node in removed then Deleted else Mapped(point)
    case _ => Mapped(point)
  }

  // ----- mixed-inline points

  // The `InlineTextReplaced` arm: (offset, ordinal) of a point of the edited node.
  function MapOverSeam(offset: nat, ordinal: nat, start: nat, end: nat, len: nat, seam: nat, bias: MapBias): (nat, nat)
    requires start <= end
  {
    if offset < start then (offset, ordinal)
    else if offset == start then
      if ordinal < seam then (offset, ordinal)
      else if ordinal == seam then
        if len > 0 && bias == End then (start + len, 0) else (offset, ordinal)
      else
        if len > 0 then (start + len, ordinal - seam) else (offset, ordinal)
    else if offset < end then
      if bias == End && len > 0 then (start + len, 0) else (start, seam)
    else if offset == end then
      if len > 0 then (start + len, ordinal) else (start, seam + ordinal)
    else (offset - (end - start) + len, ordinal)
  }

  function MapInlinePoint(m: StepMap, point: InlinePoint, bias: MapBias): MappedPosition<InlinePoint>
    requires OrderedRange(m)
  {
    if m.InlineAtomInserted? && point.node == m.parent && point.offset == m.offset then
      var ordinal :=
        if point.ordinal < m.ordinal then point.ordinal
        else if point.ordinal > m.ordinal || bias == End then point.ordinal + 1
        else point.ordinal;
      Mapped(point.(ordinal := ordinal))
    else if m.InlineAtomRemoved? && point.node == m.parent && point.offset == m.offset then
      Mapped(point.(ordinal := if point.ordinal > m.ordinal then point.ordinal - 1 else point.ordinal))
    else if m.InlineNodeSplit? && point.node == m.gap.node then
      var after := point.offset > m.gap.offset || (point.offset == m.gap.offset && point.ordinal > m.gap.ordinal);
      var exact := point.offset == m.gap.offset && point.ordinal == m.gap.ordinal;
      if after || (exact && bias == End) then
        Mapped(InlinePoint(m.inserted, point.offset - m.gap.offset,
                           if point.offset == m.gap.offset then point.ordinal - m.gap.ordinal else point.ordinal,
                           point.affinity))
      else Mapped(point)
    else if m.InlineNodeJoined? && point.node == m.second then
      Mapped(InlinePoint(m.first, m.firstLen + point.offset,
                         point.ordinal + if point.offset == 0 then m.seam else 0, point.affinity))
    else if m.InlineTextReplacedMap? && point.node == m.node then
      var (offset, ordinal) := MapOverSeam(point.offset, point.ordinal, m.start, m.end, m.len, m.seam, bias);
      Mapped(InlinePoint(point.node, offset, ordinal, point.affinity))
    else
      match MapTextPoint(m, TextPoint(point.node, point.offset, point.affinity), bias)
      case Mapped(mapped) => Mapped(InlinePoint(mapped.node, mapped.offset, point.ordinal, mapped.affinity))
      case Deleted => Deleted
  }

  // ----- structural gaps

  function MapNodeGap(m: StepMap, gap: NodeGap, bias: MapBias): MappedPosition<NodeGap> {
    match m
    case NodeReparented(_, oldParent, oldIndex, newParent, newIndex) =>
      var index := if gap.parent == oldParent && gap.index > oldIndex then gap.index - 1 else gap.index;
      var index' :=
        if gap.parent == newParent && (index > newIndex || (index == newIndex && bias == End)) then index + 1
        else index;
      Mapped(NodeGap(gap.parent, index'))
    case TableCellMerged(row, index, survivor, absorbed, at, childCount) =>
      if gap.parent == absorbed then Mapped(NodeGap(survivor, at + gap.index))
      else if gap.parent == survivor && (gap.index > at || (gap.index == at && bias == End)) then
        Mapped(NodeGap(survivor, gap.index + childCount))
      else if gap.parent == row && gap.index > index then Mapped(NodeGap(row, gap.index - 1))
      else Mapped(gap)
    case TableCellRestored(row, index, survivor, restored, at, childCount) =>
      var end := at + childCount;
      if gap.parent == survivor then
        if (gap.index > at && gap.index < end) || (gap.index == at && bias == End)
           || (gap.index == end && bias == Start) then
          // An unsigned subtraction in the source; here the index is at least `at`.
          Mapped(NodeGap(restored, gap.index - at))
        else if gap.index >= end then Mapped(NodeGap(survivor, gap.index - childCount))
        else Mapped(gap)
      else if gap.parent == row && (gap.index > index || (gap.index == index && bias == End)) then
        Mapped(NodeGap(row, gap.index + 1))
      else Mapped(gap)
    case NodeInserted(parent, index, _) => GapOverInsertion(gap, parent, index, bias)
    case NodeSplit(parent, index, _, _, _) => GapOverInsertion(gap, parent, index, bias)
    case InlineNodeSplit(parent, index, _, _) => GapOverInsertion(gap, parent, index, bias)
    case InlineNodeJoined(parent, index, _, second, _, _) => GapOverRemoval(gap, parent, index, {second})
    case NodeRemoved(parent, index, removed) => GapOverRemoval(gap, parent, index, removed)
    case NodeJoined(parent, index, _, _, _, removed) => GapOverRemoval(gap, parent, index, removed)
    case _ => Mapped(gap)
  }

  function GapOverInsertion(gap: NodeGap, parent: NodeId, index: nat, bias: MapBias): MappedPosition<NodeGap> {
    if gap.parent != parent || gap.index < index then Mapped(gap)
    else if gap.index > index || bias == End then Mapped(NodeGap(gap.parent, gap.index + 1))
    else Mapped(gap)
  }

  function GapOverRemoval(gap: NodeGap, parent: NodeId, index: nat, removed: set<NodeId>): MappedPosition<NodeGap> {
    if gap.parent in removed then Deleted
    else if gap.parent == parent && gap.index > index then Mapped(NodeGap(gap.parent, gap.index - 1))
    else Mapped(gap)
  }

  // ----- composition over a transaction

  function MapInlinePointThrough(maps: seq<StepMap>, point: InlinePoint, bias: MapBias): MappedPosition<InlinePoint>
    requires forall m :: m in maps ==> OrderedRange(m)
  {
    if maps == [] then Mapped(point)
    else
      assert maps[0] in maps;
      match MapInlinePoint(maps[0], point, bias)
      case Mapped(next) => MapInlinePointThrough(maps[1..], next, bias)
      case Deleted => Deleted
  }

  // `ChangeMap::map_inline_point`.
  method MapInlinePointThroughAll(maps: seq<StepMap>, point: InlinePoint, bias: MapBias)
      returns (r: MappedPosition<InlinePoint>)
    requires forall m :: m in maps ==> OrderedRange(m)
    ensures r == MapInlinePointThrough(maps, point, bias)
  {
    var current := point;
    for i := 0 to |maps|
      invariant MapInlinePointThrough(maps, point, bias) == MapInlinePointThrough(maps[i..], current, bias)
    {
      assert maps[i..][0] == maps[i] && maps[i..][1..] == maps[i + 1..];
      match MapInlinePoint(maps[i], current, bias) {
        case Mapped(mapped) => current := mapped;
        case Deleted => return Deleted;
      }
    }
    return Mapped(current);
  }
}
