// Mixed-inline content projected onto display bytes
// (crates/xiaomu-gpui/src/inline_atom_display.rs).
module AtomDisplay {
  import opened Wrappers
  import opened Text
  import opened Marks
  import opened Content
  import opened InlineEdit
  import opened Flat
  import opened Mapping
  import opened InlineLaws
  import opened Nodes

  datatype AtomSpan = AtomSpan(atom: NodeId, offset: nat, index: nat, start: nat, end: nat, marks: MarkSet,
      hardBreak: bool)

  datatype Projection = Projection(node: NodeId, text: seq<byte>, display: seq<byte>, atoms: seq<AtomSpan>)

  // ----- the display string, by definition

  // Rendered atoms spliced into the text at their placements.
  function DisplayOf(text: seq<byte>, atoms: seq<Placement>, rendered: seq<seq<byte>>): seq<byte>
    requires |rendered| == |atoms| && WithinText(text, atoms)
    decreases |atoms|
  {
    if atoms == [] then text
    else
      var n := |atoms| - 1;
      var at := atoms[n].offset;
      DisplayOf(text[..at], atoms[..n], rendered[..n]) + rendered[n] + text[at..]
  }

  predicate WithinText(text: seq<byte>, atoms: seq<Placement>) {
    SortedAtoms(atoms) && forall i :: 0 <= i < |atoms| ==> atoms[i].offset <= |text|
  }

  // Bytes rendered for the first `k` atoms.
  function Inserted(rendered: seq<seq<byte>>, k: nat): nat
    requires k <= |rendered|
  {
    if k == 0 then 0 else Inserted(rendered, k - 1) + |rendered[k - 1]|
  }

  lemma InsertedAt(rendered: seq<seq<byte>>, k: nat)
    requires k <= |rendered|
    ensures Inserted(rendered, k) == if k == 0 then 0 else Inserted(rendered, k - 1) + |rendered[k - 1]|
  {}

  lemma {:induction false} InsertedPrefix(rendered: seq<seq<byte>>, n: nat, k: nat)
    requires k <= n <= |rendered|
    ensures Inserted(rendered[..n], k) == Inserted(rendered, k)
  {
    if k > 0 {
      InsertedPrefix(rendered, n, k - 1);
    }
  }

  lemma {:induction false} InsertedGrows(rendered: seq<seq<byte>>, j: nat, k: nat)
    requires j <= k <= |rendered| && forall i :: 0 <= i < |rendered| ==> rendered[i] != []
    ensures Inserted(rendered, j) + (k - j) <= Inserted(rendered, k)
  {
    if j < k {
      InsertedGrows(rendered, j, k - 1);
    }
  }

  lemma {:induction false} DisplayLength(text: seq<byte>, atoms: seq<Placement>, rendered: seq<seq<byte>>)
    requires |rendered| == |atoms| && WithinText(text, atoms)
    ensures |DisplayOf(text, atoms, rendered)| == |text| + Inserted(rendered, |rendered|)
    decreases |atoms|
  {
    if atoms != [] {
      var n := |atoms| - 1;
      DisplayLength(text[..atoms[n].offset], atoms[..n], rendered[..n]);
      InsertedPrefix(rendered, n, n);
    }
  }

  // Text after the last atom stays text.
  lemma {:induction false} DisplayTail(text: seq<byte>, atoms: seq<Placement>, rendered: seq<seq<byte>>, at: nat)
    requires |rendered| == |atoms| && WithinText(text, atoms) && at <= |text|
    requires forall i :: 0 <= i < |atoms| ==> atoms[i].offset <= at
    ensures WithinText(text[..at], atoms)
    ensures DisplayOf(text, atoms, rendered) == DisplayOf(text[..at], atoms, rendered) + text[at..]
  {
    if atoms == [] {
      assert text == text[..at] + text[at..];
    } else {
      var p := atoms[|atoms| - 1].offset;
      assert text[..at][..p] == text[..p];
      assert text[..at][p..] + text[at..] == text[p..];
    }
  }

  lemma DisplayLast(text: seq<byte>, atoms: seq<Placement>, rendered: seq<seq<byte>>)
    requires |rendered| == |atoms| && WithinText(text, atoms) && atoms != []
    ensures var n := |atoms| - 1; var at := atoms[n].offset;
      && WithinText(text[..at], atoms[..n])
      && DisplayOf(text, atoms, rendered) == DisplayOf(text[..at], atoms[..n], rendered[..n]) + rendered[n] + text[at..]
  {}

  // Where atom `j`'s rendering lies.
  lemma {:induction false} DisplaySpan(text: seq<byte>, atoms: seq<Placement>, rendered: seq<seq<byte>>, j: nat)
    requires |rendered| == |atoms| && WithinText(text, atoms) && j < |atoms|
    ensures var start := atoms[j].offset + Inserted(rendered, j);
      && start + |rendered[j]| <= |DisplayOf(text, atoms, rendered)|
      && DisplayOf(text, atoms, rendered)[start..start + |rendered[j]|] == rendered[j]
    decreases |atoms|
  {
    hide DisplayOf;
    var n := |atoms| - 1;
    var at := atoms[n].offset;
    DisplayLast(text, atoms, rendered);
    DisplayLength(text[..at], atoms[..n], rendered[..n]);
    InsertedPrefix(rendered, n, n);
    var front := DisplayOf(text[..at], atoms[..n], rendered[..n]);
    var start := atoms[j].offset + Inserted(rendered, j);
    if j == n {
      SliceMiddle(front, rendered[n], text[at..]);
    } else {
      DisplaySpan(text[..at], atoms[..n], rendered[..n], j);
      InsertedPrefix(rendered, n, j);
      SlicePrefix(front, rendered[n] + text[at..], start, start + |rendered[j]|);
      assert front + rendered[n] + text[at..] == front + (rendered[n] + text[at..]);
    }
  }

  lemma SliceMiddle<T>(a: seq<T>, b: seq<T>, c: seq<T>)
    ensures (a + b + c)[|a|..|a| + |b|] == b
  {}

  lemma SlicePrefix<T>(a: seq<T>, b: seq<T>, i: nat, j: nat)
    requires i <= j <= |a|
    ensures (a + b)[i..j] == a[i..j]
  {}

  // `k` atoms lie at or before byte `x`, the others after it.
  predicate CutsAt(atoms: seq<Placement>, x: nat, k: nat) {
    && k <= |atoms|
    && (forall j :: 0 <= j < k ==> atoms[j].offset <= x)
    && (forall j :: k <= j < |atoms| ==> atoms[j].offset > x)
  }

  // Where text byte `x` lies: past the renderings of the atoms at or before it.
  lemma {:induction false} DisplayText(text: seq<byte>, atoms: seq<Placement>, rendered: seq<seq<byte>>, x: nat, k: nat)
    requires |rendered| == |atoms| && WithinText(text, atoms) && x < |text| && CutsAt(atoms, x, k)
    ensures x + Inserted(rendered, k) < |DisplayOf(text, atoms, rendered)|
    ensures DisplayOf(text, atoms, rendered)[x + Inserted(rendered, k)] == text[x]
    decreases |atoms|
  {
    if atoms != [] {
      hide DisplayOf, Inserted;
      var n := |atoms| - 1;
      var at := atoms[n].offset;
      DisplayLast(text, atoms, rendered);
      DisplayLength(text[..at], atoms[..n], rendered[..n]);
      InsertedPrefix(rendered, n, n);
      var front := DisplayOf(text[..at], atoms[..n], rendered[..n]);
      if k == |atoms| {
        InsertedAt(rendered, |rendered|);
        IndexInTail(front, rendered[n], text[at..], x - at);
      } else {
        DisplayText(text[..at], atoms[..n], rendered[..n], x, k);
        InsertedPrefix(rendered, n, k);
        IndexInFront(front, rendered[n], text[at..], x + Inserted(rendered, k));
      }
    }
  }

  lemma IndexInTail<T>(a: seq<T>, b: seq<T>, c: seq<T>, k: nat)
    requires k < |c|
    ensures |a| + |b| + k < |a + b + c| && (a + b + c)[|a| + |b| + k] == c[k]
  {}

  lemma IndexInFront<T>(a: seq<T>, b: seq<T>, c: seq<T>, k: nat)
    requires k < |a|
    ensures k < |a + b + c| && (a + b + c)[k] == a[k]
  {}

  // ----- projections

  ghost predicate RenderedOk(rendered: seq<seq<byte>>) {
    forall i :: 0 <= i < |rendered| ==> rendered[i] != [] && ValidUtf8(rendered[i])
  }

  // What the `j`-th span records.
  ghost predicate SpanAt(span: AtomSpan, atoms: seq<Placement>, rendered: seq<seq<byte>>, j: nat) {
    && j < |atoms| && j < |rendered| && span.atom == atoms[j].atom && span.offset == atoms[j].offset
    && FirstAt(atoms, span.offset) <= j && span.index == j - FirstAt(atoms, span.offset)
    && span.start == span.offset + Inserted(rendered, j) && span.end == span.start + |rendered[j]|
  }

  // A projection of `c` with the given renderings.
  ghost predicate Projects(p: Projection, c: InlineContent, rendered: seq<seq<byte>>) {
    && WfContent(c) && RenderedOk(rendered)
    && p.text == Bytes(Chars(c.runs)) && |rendered| == |c.atoms| == |p.atoms| && WithinText(p.text, c.atoms)
    && p.display == DisplayOf(p.text, c.atoms, rendered)
    && forall j :: 0 <= j < |p.atoms| ==> SpanAt(p.atoms[j], c.atoms, rendered, j)
  }

  // The display position of a caret: its byte offset plus the renderings of the
  // atoms before it.
  function DisplayIndex(c: InlineContent, rendered: seq<seq<byte>>, p: Caret): nat
    requires CaretCut(c.atoms, p) <= |rendered|
  {
    p.offset + Inserted(rendered, CaretCut(c.atoms, p))
  }

  lemma CutInRange(c: InlineContent, rendered: seq<seq<byte>>, p: Caret)
    requires SortedAtoms(c.atoms) && |rendered| == |c.atoms| && p.ordinal <= CountAt(c.atoms, p.offset)
    ensures CaretCut(c.atoms, p) <= |rendered|
  {
    CaretCuts(c.atoms, p);
  }

  lemma TextBoundary(c: InlineContent, x: nat)
    ensures Boundary(Chars(c.runs), x) <==> IsBoundary(Bytes(Chars(c.runs)), x)
  {
    hide Chars;
  }

  // ----- building

  // A renderer's output, or the atom's fallback when that is empty.
  function RenderedText(render: Node -> seq<byte>, node: Node): seq<byte>
    requires node.content.AtomPayload?
  {
    if render(node) == [] then node.content.fallback else render(node)
  }

  predicate IsAtom(store: Store, id: NodeId) {
    id in store && store[id].kind.InlineAtom? && store[id].content.AtomPayload?
  }

  ghost predicate Renders(store: Store, render: Node -> seq<byte>, atoms: seq<Placement>, rendered: seq<seq<byte>>) {
    && |rendered| <= |atoms|
    && forall i :: 0 <= i < |rendered| ==>
      IsAtom(store, atoms[i].atom) && rendered[i] == RenderedText(render, store[atoms[i].atom])
  }

  lemma {:induction false} DisplayPush(text: seq<byte>, atoms: seq<Placement>, rendered: seq<seq<byte>>, i: nat,
                                       cursor: nat, next: seq<byte>)
    requires WithinText(text, atoms) && i < |atoms| && |rendered| == i
    requires cursor <= atoms[i].offset && forall j :: 0 <= j < i ==> atoms[j].offset <= cursor
    ensures WithinText(text[..cursor], atoms[..i]) && WithinText(text[..atoms[i].offset], atoms[..i + 1])
    ensures DisplayOf(text[..atoms[i].offset], atoms[..i + 1], rendered + [next])
      == DisplayOf(text[..cursor], atoms[..i], rendered) + text[cursor..atoms[i].offset] + next
  {
    hide DisplayOf;
    var at := atoms[i].offset;
    DisplayTail(text[..at], atoms[..i], rendered, cursor);
    assert text[..at][..cursor] == text[..cursor] && text[..at][cursor..] == text[cursor..at];
    var longer := atoms[..i + 1];
    assert longer[..i] == atoms[..i] && (rendered + [next])[..i] == rendered;
    DisplayLast(text[..at], longer, rendered + [next]);
    assert text[..at][..at] == text[..at] && text[..at][at..] == [];
  }

  // The ordinal counter: how many earlier atoms share the offset.
  lemma {:induction false} NextOrdinal(atoms: seq<Placement>, i: nat)
    requires SortedAtoms(atoms) && i < |atoms|
    ensures FirstAt(atoms, atoms[i].offset) <= i
    ensures i > 0 && atoms[i - 1].offset == atoms[i].offset ==>
      FirstAt(atoms, atoms[i - 1].offset) == FirstAt(atoms, atoms[i].offset)
    ensures i == 0 || atoms[i - 1].offset != atoms[i].offset ==> FirstAt(atoms, atoms[i].offset) == i
  {
    hide FirstAt;
    if i == 0 || atoms[i - 1].offset != atoms[i].offset {
      FirstAtUnique(atoms, atoms[i].offset, i);
    }
  }

  // A span shows what the renderer says of its stored atom, or the atom's own
  // fallback when it says nothing, with the atom's marks.
  ghost predicate Labels(store: Store, render: Node -> seq<byte>, span: AtomSpan, display: seq<byte>) {
    && IsAtom(store, span.atom) && span.start <= span.end <= |display|
    && var atom := store[span.atom];
      && (render(atom) != [] ==> display[span.start..span.end] == render(atom))
      && (render(atom) == [] ==> display[span.start..span.end] == atom.content.fallback)
      && span.marks == atom.content.marks && (span.hardBreak <==> atom.kind == InlineAtom(HardBreak))
  }

  lemma LabelsStay(store: Store, render: Node -> seq<byte>, spans: seq<AtomSpan>, display: seq<byte>, more: seq<byte>)
    requires forall j :: 0 <= j < |spans| ==> Labels(store, render, spans[j], display)
    ensures forall j :: 0 <= j < |spans| ==> Labels(store, render, spans[j], display + more)
  {
    forall j | 0 <= j < |spans|
      ensures Labels(store, render, spans[j], display + more)
    {
      assert (display + more)[spans[j].start..spans[j].end] == display[spans[j].start..spans[j].end];
    }
  }

  lemma LabelsNew(store: Store, render: Node -> seq<byte>, span: AtomSpan, display: seq<byte>, shown: seq<byte>)
    requires IsAtom(store, span.atom) && shown == RenderedText(render, store[span.atom])
    requires span.start == |display| && span.end == |display| + |shown|
    requires span.marks == store[span.atom].content.marks
    requires span.hardBreak <==> store[span.atom].kind.atom.HardBreak?
    ensures Labels(store, render, span, display + shown)
  {
    assert (display + shown)[|display|..|display| + |shown|] == shown;
  }

  // What the loop has established after `i` atoms.
  ghost predicate Building(store: Store, render: Node -> seq<byte>, text: seq<byte>, atoms: seq<Placement>, i: nat,
                           rendered: seq<seq<byte>>, spans: seq<AtomSpan>, display: seq<byte>, cursor: nat,
                               index: nat) {
    && i <= |atoms| && |spans| == |rendered| == i && Renders(store, render, atoms, rendered) && RenderedOk(rendered)
    && cursor <= |text| && (forall j :: 0 <= j < i ==> atoms[j].offset <= cursor)
    && (i == 0 ==> cursor == 0)
    && (i > 0 ==> cursor == atoms[i - 1].offset && FirstAt(atoms, cursor) <= i - 1 && index == i - 1 - FirstAt(atoms,
        cursor))
    && WithinText(text[..cursor], atoms[..i]) && display == DisplayOf(text[..cursor], atoms[..i], rendered)
    && |display| == cursor + Inserted(rendered, i)
    && forall j :: 0 <= j < i ==> SpanAt(spans[j], atoms, rendered, j)
  }

  lemma BuildStarts(store: Store, render: Node -> seq<byte>, text: seq<byte>, atoms: seq<Placement>)
    ensures Building(store, render, text, atoms, 0, [], [], [], 0, 0)
  {
    NothingShown(text);
  }

  lemma {:induction false} BuildStep(store: Store, render: Node -> seq<byte>, text: seq<byte>, atoms: seq<Placement>,
                                     i: nat,
                                     rendered: seq<seq<byte>>, spans: seq<AtomSpan>, display: seq<byte>, cursor: nat,
                                         index: nat, shown: seq<byte>, span: AtomSpan)
    requires Building(store, render, text, atoms, i, rendered, spans, display, cursor, index) && i < |atoms|
      && WithinText(text, atoms)
    requires IsAtom(store, atoms[i].atom) && shown == RenderedText(render, store[atoms[i].atom]) && shown != []
      && ValidUtf8(shown)
    requires cursor <= atoms[i].offset
    requires span.atom == atoms[i].atom && span.offset == atoms[i].offset && FirstAt(atoms, span.offset) <= i
    requires span.index == i - FirstAt(atoms, span.offset)
    requires span.start == |display| + (atoms[i].offset - cursor) && span.end == span.start + |shown|
    ensures Building(store, render, text, atoms, i + 1, rendered + [shown], spans + [span],
                     display + text[cursor..atoms[i].offset] + shown, atoms[i].offset, span.index)
  {
    hide ValidUtf8, DisplayOf, FirstAt, Inserted, RenderedText, IsAtom;
    var raw := atoms[i].offset;
    OffsetsInOrder(text, atoms, i);
    DisplayPush(text, atoms, rendered, i, cursor, shown);
    InsertedPush(rendered, shown);
    var more := rendered + [shown];
    forall j | 0 <= j < i
      ensures SpanAt((spans + [span])[j], atoms, more, j)
    {
      assert SpanAt(spans[j], atoms, rendered, j) && more[j] == rendered[j];
    }
  }

  // `build`: none exactly when the node has no inline content or an atom is not
  // stored as one.
  method Build(store: Store, node: NodeId, render: Node -> seq<byte>) returns (r: Option<Projection>,
               ghost rendered: seq<seq<byte>>)
    requires node in store && store[node].content.Inline? ==> WfContent(store[node].content.inline)
    requires forall n: Node :: ValidUtf8(render(n))
    requires forall id :: IsAtom(store, id) ==>
      store[id].content.fallback != [] && ValidUtf8(store[id].content.fallback)
    ensures r.Some? <==> (
      && node in store && store[node].content.Inline?
      && forall i :: 0 <= i < |store[node].content.inline.atoms| ==>
        IsAtom(store, store[node].content.inline.atoms[i].atom))
    ensures r.Some? ==> r.value.node == node && Projects(r.value, store[node].content.inline, rendered)
    ensures r.Some? ==> Renders(store, render, store[node].content.inline.atoms, rendered)
    ensures r.Some? ==>
      forall j :: 0 <= j < |r.value.atoms| ==> Labels(store, render, r.value.atoms[j], r.value.display)
  {
    hide Chars, WfContent, ValidUtf8, Building, RenderedText, Projects, Renders, WithinText, Labels, FirstAt;
    hide SortedAtoms, DisplayOf, Inserted;
    rendered := [];
    if node !in store || !store[node].content.Inline? {
      return None, rendered;
    }
    var c := store[node].content.inline;
    var atoms := c.atoms;
    var text := RunsText(c.runs);
    TextHolds(c);
    var display: seq<byte> := [];
    var spans: seq<AtomSpan> := [];
    var cursor := 0;
    var previous: Option<nat> := None;
    var index := 0;
    BuildStarts(store, render, text, atoms);
    for i := 0 to |atoms|
      invariant Building(store, render, text, atoms, i, rendered, spans, display, cursor, index)
      invariant previous == if i == 0 then None else Some(atoms[i - 1].offset)
      invariant forall j :: 0 <= j < i ==> IsAtom(store, atoms[j].atom)
      invariant |spans| == i && forall j :: 0 <= j < i ==> Labels(store, render, spans[j], display)
    {
      var raw := atoms[i].offset;
      BuiltSoFar(store, render, text, atoms, i, rendered, spans, display, cursor, index);
      var before := text[cursor..raw];
      NextOrdinal(atoms, i);
      var next := if previous == Some(raw) then index + 1 else 0;
      previous := Some(raw);
      var atom := atoms[i].atom;
      if !IsAtom(store, atom) {
        return None, rendered;
      }
      var shown := RenderedText(render, store[atom]);
      RenderedIsText(store, render, atom);
      var start := |display| + |before|;
      var span := AtomSpan(atom, raw, next, start, start + |shown|, store[atom].content.marks,
          store[atom].kind.atom.HardBreak?);
      BuildStep(store, render, text, atoms, i, rendered, spans, display, cursor, index, shown, span);
      LabelsStay(store, render, spans, display, before);
      LabelsStay(store, render, spans, display + before, shown);
      LabelsNew(store, render, span, display + before, shown);
      display := display + before + shown;
      spans := spans + [span];
      rendered := rendered + [shown];
      cursor, index := raw, next;
    }
    BuildEnds(store, render, c, text, rendered, spans, display, cursor, index, node);
    LabelsStay(store, render, spans, display, text[cursor..]);
    display := display + text[cursor..];
    r := Some(Projection(node, text, display, spans));
  }

  lemma BuiltSoFar(store: Store, render: Node -> seq<byte>, text: seq<byte>, atoms: seq<Placement>, i: nat,
                   rendered: seq<seq<byte>>, spans: seq<AtomSpan>, display: seq<byte>, cursor: nat, index: nat)
    requires Building(store, render, text, atoms, i, rendered, spans, display, cursor, index) && i < |atoms|
      && WithinText(text, atoms)
    ensures cursor <= atoms[i].offset <= |text| && SortedAtoms(atoms)
    ensures i > 0 ==> cursor == atoms[i - 1].offset
    ensures i > 0 ==> FirstAt(atoms, cursor) <= i - 1 && index == i - 1 - FirstAt(atoms, cursor)
  {
    hide DisplayOf, FirstAt, Inserted, Renders, RenderedOk, SpanAt;
  }

  lemma {:induction false} BuildEnds(store: Store, render: Node -> seq<byte>, c: InlineContent, text: seq<byte>,
                                     rendered: seq<seq<byte>>,
                                     spans: seq<AtomSpan>, display: seq<byte>, cursor: nat, index: nat, node: NodeId)
    requires WfContent(c) && text == Bytes(Chars(c.runs)) && WithinText(text, c.atoms)
    requires Building(store, render, text, c.atoms, |c.atoms|, rendered, spans, display, cursor, index)
    ensures cursor <= |text| && Projects(Projection(node, text, display + text[cursor..], spans), c, rendered)
    ensures Renders(store, render, c.atoms, rendered)
  {
    hide Chars, WfContent, DisplayOf, FirstAt, Inserted, RenderedOk, Renders;
    assert c.atoms[..|c.atoms|] == c.atoms;
    DisplayTail(text, c.atoms, rendered, cursor);
  }

  method RunsText(runs: seq<TextRun>) returns (text: seq<byte>)
    ensures text == Bytes(Chars(runs))
  {
    hide Chars, Marked;
    text := [];
    NoRuns();
    assert runs[..0] == [];
    for i := 0 to |runs|
      invariant text == Bytes(Chars(runs[..i]))
    {
      CharsOfRun(runs, i);
      BytesOfConcat(Chars(runs[..i]), Marked(runs[i].text, runs[i].marks));
      BytesOfMarkedText(runs[i].text, runs[i].marks);
      text := text + runs[i].text;
    }
    assert runs[..|runs|] == runs;
  }

  lemma BytesOfMarkedText(text: seq<byte>, marks: MarkSet)
    ensures Bytes(Marked(text, marks)) == text
  {}

  lemma {:induction false} TextHolds(c: InlineContent)
    requires WfContent(c)
    ensures WithinText(Bytes(Chars(c.runs)), c.atoms)
  {
    hide Chars, CharsOk, CanonicalRuns;
  }

  lemma NothingShown(text: seq<byte>)
    ensures WithinText(text[..0], []) && DisplayOf(text[..0], [], []) == [] && Inserted([], 0) == 0
  {}

  lemma OffsetsInOrder(text: seq<byte>, atoms: seq<Placement>, i: nat)
    requires WithinText(text, atoms) && i < |atoms|
    ensures atoms[i].offset <= |text| && SortedAtoms(atoms) && forall j :: 0 <= j < i ==>
      atoms[j].offset <= atoms[i].offset
  {}

  lemma InsertedPush(rendered: seq<seq<byte>>, next: seq<byte>)
    ensures Inserted(rendered + [next], |rendered| + 1) == Inserted(rendered, |rendered|) + |next|
    ensures forall j :: 0 <= j <= |rendered| ==> Inserted(rendered + [next], j) == Inserted(rendered, j)
  {
    forall j | 0 <= j <= |rendered|
      ensures Inserted(rendered + [next], j) == Inserted(rendered, j)
    {
      InsertedPrefix(rendered + [next], |rendered|, j);
      assert (rendered + [next])[..|rendered|] == rendered;
    }
  }

  lemma RenderedIsText(store: Store, render: Node -> seq<byte>, id: NodeId)
    requires IsAtom(store, id) && ValidUtf8(render(store[id]))
    requires store[id].content.fallback != [] && ValidUtf8(store[id].content.fallback)
    ensures RenderedText(render, store[id]) != [] && ValidUtf8(RenderedText(render, store[id]))
  {
    hide ValidUtf8;
  }

  // ----- caret gaps to display boundaries

  // `partition_point`: how many spans lie before offset `x`.
  method PartitionBelow(atoms: seq<AtomSpan>, x: nat) returns (r: nat)
    requires forall i, j :: 0 <= i < j < |atoms| ==> atoms[i].offset <= atoms[j].offset
    ensures r <= |atoms|
    ensures forall i :: 0 <= i < r ==> atoms[i].offset < x
    ensures forall i :: r <= i < |atoms| ==> atoms[i].offset >= x
  {
    var lo, hi := 0, |atoms|;
    while lo < hi
      invariant lo <= hi <= |atoms|
      invariant forall i :: 0 <= i < lo ==> atoms[i].offset < x
      invariant forall i :: hi <= i < |atoms| ==> atoms[i].offset >= x
    {
      var mid := lo + (hi - lo) / 2;
      if atoms[mid].offset < x {
        lo := mid + 1;
      } else {
        hi := mid;
      }
    }
    r := lo;
  }

  lemma {:induction false} SpanFacts(p: Projection, c: InlineContent, rendered: seq<seq<byte>>)
    requires Projects(p, c, rendered)
    ensures |p.atoms| == |c.atoms| == |rendered| && SortedAtoms(c.atoms) && p.text == Bytes(Chars(c.runs))
    ensures forall j :: 0 <= j < |p.atoms| ==>
      && p.atoms[j].atom == c.atoms[j].atom && p.atoms[j].offset == c.atoms[j].offset
      && p.atoms[j].start == c.atoms[j].offset + Inserted(rendered, j)
        && p.atoms[j].end == p.atoms[j].start + |rendered[j]|
  {
    hide Chars, FirstAt, Inserted, DisplayOf, CharsOk, CanonicalRuns;
    assert forall j :: 0 <= j < |p.atoms| ==> SpanAt(p.atoms[j], c.atoms, rendered, j);
  }

  // The prefix-sum formula is the plain sum: total on the node's valid carets,
  // nothing else.
  method DisplayOffsetFor(p: Projection, point: InlinePoint, ghost c: InlineContent, ghost rendered: seq<seq<byte>>)
    returns (r: Option<nat>)
    requires Projects(p, c, rendered)
    ensures r.Some? <==> point.node == p.node && ValidCaret(c, CaretOf(point))
    ensures r.Some? ==> CaretCut(c.atoms, CaretOf(point)) <= |rendered| && r.value == DisplayIndex(c, rendered,
        CaretOf(point))
  {
    hide Chars, Projects, FirstAt, CountAt, Inserted, IsBoundary, Boundary, SortedAtoms;
    ProjectedText(p, c, rendered);
    TextBoundary(c, point.offset);
    if point.node != p.node || !IsBoundary(p.text, point.offset) {
      return None;
    }
    var raw := point.offset;
    SpansSorted(p, c, rendered);
    var first := PartitionBelow(p.atoms, raw);
    var last := PartitionBelow(p.atoms, raw + 1);
    PartitionIsFirst(p, c, rendered, raw, first);
    PartitionIsFirst(p, c, rendered, raw + 1, last);
    CountIsGap(c.atoms, raw);
    if point.ordinal > last - first {
      return None;
    }
    var before := first + point.ordinal;
    SpanPrefixSum(p, c, rendered, before);
    var inserted := if before == 0 then 0 else p.atoms[before - 1].end - p.atoms[before - 1].offset;
    return Some(raw + inserted);
  }

  lemma ProjectedText(p: Projection, c: InlineContent, rendered: seq<seq<byte>>)
    requires Projects(p, c, rendered)
    ensures p.text == Bytes(Chars(c.runs)) && |p.atoms| == |c.atoms| == |rendered| && SortedAtoms(c.atoms)
  {
    hide Chars, DisplayOf, CharsOk, CanonicalRuns, SpanAt;
  }

  // Each span's end already contains the sum of the renderings so far.
  lemma SpanPrefixSum(p: Projection, c: InlineContent, rendered: seq<seq<byte>>, k: nat)
    requires Projects(p, c, rendered) && k <= |p.atoms|
    ensures k <= |rendered|
    ensures Inserted(rendered, k) == if k == 0 then 0 else p.atoms[k - 1].end - p.atoms[k - 1].offset
  {
    hide Chars, DisplayOf, CharsOk, CanonicalRuns, FirstAt;
    if k > 0 {
      assert SpanAt(p.atoms[k - 1], c.atoms, rendered, k - 1);
    }
  }

  lemma SpansSorted(p: Projection, c: InlineContent, rendered: seq<seq<byte>>)
    requires Projects(p, c, rendered)
    ensures forall i, j :: 0 <= i < j < |p.atoms| ==> p.atoms[i].offset <= p.atoms[j].offset
  {
    hide Projects, FirstAt, Inserted, Chars;
    SpanFacts(p, c, rendered);
  }

  lemma PartitionIsFirst(p: Projection, c: InlineContent, rendered: seq<seq<byte>>, x: nat, r: nat)
    requires Projects(p, c, rendered) && r <= |p.atoms|
    requires forall i :: 0 <= i < r ==> p.atoms[i].offset < x
    requires forall i :: r <= i < |p.atoms| ==> p.atoms[i].offset >= x
    ensures r == FirstAt(c.atoms, x) && SortedAtoms(c.atoms)
  {
    hide Projects, FirstAt, Inserted, Chars;
    SpanFacts(p, c, rendered);
    FirstAtUnique(c.atoms, x, r);
  }

  // Display order is caret order.
  lemma {:induction false} DisplayIncreases(c: InlineContent, rendered: seq<seq<byte>>, p: Caret, q: Caret)
    requires SortedAtoms(c.atoms) && |rendered| == |c.atoms| && RenderedOk(rendered)
    requires p.ordinal <= CountAt(c.atoms, p.offset) && q.ordinal <= CountAt(c.atoms, q.offset) && CaretBefore(p, q)
    ensures CaretCut(c.atoms, p) <= |rendered| && CaretCut(c.atoms, q) <= |rendered|
    ensures DisplayIndex(c, rendered, p) < DisplayIndex(c, rendered, q)
  {
    hide FirstAt, CountAt, Inserted, ValidUtf8;
    CutInRange(c, rendered, p);
    CutInRange(c, rendered, q);
    AtomBlocks(c.atoms, p.offset);
    FirstAtMonotone(c.atoms, p.offset, q.offset);
    InsertedGrows(rendered, CaretCut(c.atoms, p), CaretCut(c.atoms, q));
  }

  // ----- display boundaries to caret gaps

  // A caret never falls strictly inside a rendering.
  lemma {:induction false} CaretOutsideSpans(p: Projection, c: InlineContent, rendered: seq<seq<byte>>, q: Caret,
                                             j: nat)
    requires Projects(p, c, rendered) && q.ordinal <= CountAt(c.atoms, q.offset) && j < |p.atoms|
    ensures CaretCut(c.atoms, q) <= |rendered|
    ensures j < CaretCut(c.atoms, q) ==> p.atoms[j].end <= DisplayIndex(c, rendered, q)
    ensures j >= CaretCut(c.atoms, q) ==> DisplayIndex(c, rendered, q) <= p.atoms[j].start
  {
    hide FirstAt, CountAt, Inserted, ValidUtf8, Projects;
    SpanFacts(p, c, rendered);
    RenderedFacts(p, c, rendered);
    CutInRange(c, rendered, q);
    CaretCuts(c.atoms, q);
    var cut := CaretCut(c.atoms, q);
    if j < cut {
      InsertedAt(rendered, j + 1);
      InsertedGrows(rendered, j + 1, cut);
    } else {
      InsertedGrows(rendered, cut, j);
    }
  }

  lemma RenderedFacts(p: Projection, c: InlineContent, rendered: seq<seq<byte>>)
    requires Projects(p, c, rendered)
    ensures RenderedOk(rendered) && WithinText(p.text, c.atoms) && p.display == DisplayOf(p.text, c.atoms, rendered)
    ensures WfContent(c)
  {
    hide Chars, WfContent, DisplayOf, SpanAt, RenderedOk;
  }

  // A caret lies on a character boundary of the display.
  lemma {:induction false} CaretOnBoundary(p: Projection, c: InlineContent, rendered: seq<seq<byte>>, q: Caret)
    requires Projects(p, c, rendered) && ValidCaret(c, q)
    ensures CaretCut(c.atoms, q) <= |rendered| && DisplayIndex(c, rendered, q) <= |p.display|
    ensures IsBoundary(p.display, DisplayIndex(c, rendered, q))
  {
    hide Chars, FirstAt, CountAt, Inserted, ValidUtf8, Projects, DisplayOf, WfContent;
    SpanFacts(p, c, rendered);
    RenderedFacts(p, c, rendered);
    CutInRange(c, rendered, q);
    AtomBlocks(c.atoms, q.offset);
    OffsetInText(Chars(c.runs), q.offset);
    var cut := CaretCut(c.atoms, q);
    DisplayLength(p.text, c.atoms, rendered);
    if q.ordinal < CountAt(c.atoms, q.offset) {
      DisplaySpan(p.text, c.atoms, rendered, cut);
      SpanStart(p.display, DisplayIndex(c, rendered, q), rendered[cut]);
    } else if q.offset < |p.text| {
      DisplayText(p.text, c.atoms, rendered, q.offset, cut);
      TextBoundary(c, q.offset);
      TextIsValid(c);
      FirstIsLead(p.text);
    } else {
      AllBefore(c.atoms, |p.text|, cut);
    }
  }

  lemma TextIsValid(c: InlineContent)
    requires WfContent(c)
    ensures ValidUtf8(Bytes(Chars(c.runs)))
  {
    hide Chars, ValidUtf8, CanonicalRuns;
  }

  lemma SpanStart(display: seq<byte>, start: nat, shown: seq<byte>)
    requires start + |shown| <= |display| && display[start..start + |shown|] == shown && shown != [] && ValidUtf8(shown)
    ensures IsBoundary(display, start)
  {
    hide ValidUtf8;
    FirstIsLead(shown);
    assert display[start] == display[start..start + |shown|][0];
  }

  lemma {:induction false} AllBefore(atoms: seq<Placement>, len: nat, cut: nat)
    requires SortedAtoms(atoms) && (forall i :: 0 <= i < |atoms| ==> atoms[i].offset <= len)
    requires cut == FirstAt(atoms, len) + CountAt(atoms, len)
    ensures cut == |atoms|
  {
    hide FirstAt, CountAt;
    CountIsGap(atoms, len);
    FirstAtUnique(atoms, len + 1, |atoms|);
  }

  // A character boundary clear of all renderings is the caret at its text offset.
  lemma {:induction false} ClearBoundary(p: Projection, c: InlineContent, rendered: seq<seq<byte>>, d: nat, k: nat)
    requires Projects(p, c, rendered) && d <= |p.display| && IsBoundary(p.display, d) && k <= |p.atoms|
    requires forall j :: 0 <= j < k ==> p.atoms[j].end < d
    requires forall j :: k <= j < |p.atoms| ==> d < p.atoms[j].start
    ensures k <= |rendered| && Inserted(rendered, k) <= d
    ensures var q := Caret(d - Inserted(rendered, k), 0);
      ValidCaret(c, q) && CaretCut(c.atoms, q) == k && DisplayIndex(c, rendered, q) == d
  {
    hide Chars, FirstAt, CountAt, Inserted, ValidUtf8, Projects, DisplayOf, WfContent;
    SpanFacts(p, c, rendered);
    RenderedFacts(p, c, rendered);
    DisplayLength(p.text, c.atoms, rendered);
    ClearOffsets(p, c, rendered, d, k);
    var raw := d - Inserted(rendered, k);
    FirstAtUnique(c.atoms, raw, k);
    FirstAtUnique(c.atoms, raw + 1, k);
    CountIsGap(c.atoms, raw);
    if raw < |p.text| {
      DisplayText(p.text, c.atoms, rendered, raw, k);
    }
    TextBoundary(c, raw);
  }

  lemma {:induction false} ClearOffsets(p: Projection, c: InlineContent, rendered: seq<seq<byte>>, d: nat, k: nat)
    requires Projects(p, c, rendered) && d <= |p.display| && k <= |p.atoms|
    requires forall j :: 0 <= j < k ==> p.atoms[j].end < d
    requires forall j :: k <= j < |p.atoms| ==> d < p.atoms[j].start
    ensures k <= |rendered| && Inserted(rendered, k) <= d && d - Inserted(rendered, k) <= |p.text|
    ensures d == 0 ==> k == 0
    ensures forall j :: 0 <= j < k ==> c.atoms[j].offset < d - Inserted(rendered, k)
    ensures forall j :: k <= j < |c.atoms| ==> c.atoms[j].offset > d - Inserted(rendered, k)
  {
    hide Chars, FirstAt, CountAt, Inserted, ValidUtf8, Projects, DisplayOf, WfContent;
    SpanFacts(p, c, rendered);
    RenderedFacts(p, c, rendered);
    DisplayLength(p.text, c.atoms, rendered);
    InsertedAt(rendered, k);
    if k > 0 {
      assert p.atoms[k - 1].end < d;
    }
    if k < |c.atoms| {
      assert d < p.atoms[k].start;
      assert c.atoms[k].offset <= |p.text|;
    } else {
      assert Inserted(rendered, |rendered|) == Inserted(rendered, k);
    }
  }

  // Strictly inside some rendering.
  ghost predicate InsideSpan(p: Projection, d: nat) {
    exists j :: 0 <= j < |p.atoms| && p.atoms[j].start < d < p.atoms[j].end
  }

  lemma {:induction false} SpanGaps(p: Projection, c: InlineContent, rendered: seq<seq<byte>>, j: nat)
    requires Projects(p, c, rendered) && j < |p.atoms|
    ensures j < |p.atoms| == |c.atoms| == |rendered|
    ensures var before := Caret(p.atoms[j].offset, p.atoms[j].index);
      var after := Caret(p.atoms[j].offset, p.atoms[j].index + 1);
      && ValidCaret(c, before) && CaretCut(c.atoms, before) == j
        && DisplayIndex(c, rendered, before) == p.atoms[j].start
      && ValidCaret(c, after) && CaretCut(c.atoms, after) == j + 1 && DisplayIndex(c, rendered, after) == p.atoms[j].end
  {
    hide Chars, FirstAt, CountAt, Inserted, ValidUtf8, DisplayOf, CanonicalRuns, CharsOk, Boundary;
    assert SpanAt(p.atoms[j], c.atoms, rendered, j);
    assert Boundary(Chars(c.runs), c.atoms[j].offset);
    AtomBlocks(c.atoms, c.atoms[j].offset);
    InsertedAt(rendered, j + 1);
  }

  // `inline_point_for_display_boundary`: defined exactly on character boundaries
  // outside renderings, and there the caret displayed at that byte.
  method PointForBoundary(p: Projection, d: nat, affinity: Affinity, ghost c: InlineContent,
                          ghost rendered: seq<seq<byte>>)
      returns (r: Option<InlinePoint>)
    requires Projects(p, c, rendered)
    ensures r.Some? <==> d <= |p.display| && IsBoundary(p.display, d) && !InsideSpan(p, d)
    ensures r.Some? ==>
      && r.value.node == p.node && r.value.affinity == affinity && ValidCaret(c, CaretOf(r.value))
      && CaretCut(c.atoms, CaretOf(r.value)) <= |rendered| && DisplayIndex(c, rendered, CaretOf(r.value)) == d
  {
    hide Projects, Inserted, FirstAt, CountAt, ValidCaret, IsBoundary;
    if d > |p.display| || !IsBoundary(p.display, d) {
      return None;
    }
    SpansApart(p, c, rendered);
    var inserted := 0;
    for i := 0 to |p.atoms|
      invariant forall j :: 0 <= j < i ==> d < p.atoms[j].start || p.atoms[j].end < d
    {
      var atom := p.atoms[i];
      if d > atom.start && d < atom.end {
        return None;
      }
      SpanGaps(p, c, rendered, i);
      if d == atom.start {
        return Some(InlinePoint(p.node, atom.offset, atom.index, affinity));
      }
      if d == atom.end {
        return Some(InlinePoint(p.node, atom.offset, atom.index + 1, affinity));
      }
    }
    var k, total := RenderedBefore(p, d, c, rendered);
    ClearBoundary(p, c, rendered, d, k);
    // Neither the subtraction nor the offset check of the source can fail here.
    return Some(InlinePoint(p.node, d - total, 0, affinity));
  }

  // Renderings follow one another.
  lemma {:induction false} SpansApart(p: Projection, c: InlineContent, rendered: seq<seq<byte>>)
    requires Projects(p, c, rendered)
    ensures forall i :: 0 <= i < |p.atoms| ==> p.atoms[i].start < p.atoms[i].end
    ensures forall i, j :: 0 <= i < j < |p.atoms| ==> p.atoms[i].end <= p.atoms[j].start
  {
    hide Projects, Inserted, ValidUtf8;
    SpanFacts(p, c, rendered);
    RenderedFacts(p, c, rendered);
    forall i, j | 0 <= i < j < |p.atoms|
      ensures p.atoms[i].end <= p.atoms[j].start
    {
      InsertedAt(rendered, i + 1);
      InsertedGrows(rendered, i + 1, j);
    }
  }

  // The sum over the spans that end by `d`; they come first.
  method RenderedBefore(p: Projection, d: nat, ghost c: InlineContent, ghost rendered: seq<seq<byte>>)
    returns (ghost k: nat, total: nat)
    requires Projects(p, c, rendered) && forall j :: 0 <= j < |p.atoms| ==> d < p.atoms[j].start || p.atoms[j].end < d
    ensures k <= |p.atoms| && k <= |rendered| && total == Inserted(rendered, k)
    ensures forall j :: 0 <= j < k ==> p.atoms[j].end < d
    ensures forall j :: k <= j < |p.atoms| ==> d < p.atoms[j].start
  {
    hide Projects, Inserted;
    SpansApart(p, c, rendered);
    SpanFacts(p, c, rendered);
    InsertedAt(rendered, 0);
    k, total := 0, 0;
    for i := 0 to |p.atoms|
      invariant k <= i && total == Inserted(rendered, k)
      invariant forall j :: 0 <= j < k ==> p.atoms[j].end < d
      invariant forall j :: k <= j < i ==> d < p.atoms[j].start
      invariant k == i || d < p.atoms[k].start
    {
      if p.atoms[i].end <= d {
        assert k == i;
        InsertedAt(rendered, i + 1);
        total := total + (p.atoms[i].end - p.atoms[i].start);
        k := i + 1;
      }
    }
  }

  // There and back: the boundary shown for a caret leads back to that caret.
  lemma {:induction false} DisplayInjective(c: InlineContent, rendered: seq<seq<byte>>, p: Caret, q: Caret)
    requires SortedAtoms(c.atoms) && |rendered| == |c.atoms| && RenderedOk(rendered)
    requires p.ordinal <= CountAt(c.atoms, p.offset) && q.ordinal <= CountAt(c.atoms, q.offset)
    requires CaretCut(c.atoms, p) <= |rendered| && CaretCut(c.atoms, q) <= |rendered|
    requires DisplayIndex(c, rendered, p) == DisplayIndex(c, rendered, q)
    ensures p == q
  {
    hide FirstAt, CountAt, Inserted, RenderedOk, DisplayIndex;
    if CaretBefore(p, q) {
      DisplayIncreases(c, rendered, p, q);
    } else if CaretBefore(q, p) {
      DisplayIncreases(c, rendered, q, p);
    }
  }

  // ----- pointer hits

  // `inline_point_for_display_hit`: inside a rendering the nearer of its two
  // gaps, the later one from the middle on; elsewhere the boundary's caret.
  method PointForHit(p: Projection, d: nat, affinity: Affinity, ghost c: InlineContent, ghost rendered: seq<seq<byte>>)
      returns (r: Option<InlinePoint>)
    requires Projects(p, c, rendered)
    ensures forall j :: 0 <= j < |p.atoms| && p.atoms[j].start <= d < p.atoms[j].end ==>
      r == Some(InlinePoint(p.node, p.atoms[j].offset,
                            if d - p.atoms[j].start < p.atoms[j].end - d then p.atoms[j].index
                              else p.atoms[j].index + 1, BeforeGlyph))
    ensures r.Some? ==> r.value.node == p.node && ValidCaret(c, CaretOf(r.value))
    ensures r.Some? && !InsideSpan(p, d) ==>
      CaretCut(c.atoms, CaretOf(r.value)) <= |rendered| && DisplayIndex(c, rendered, CaretOf(r.value)) == d
    ensures r.Some? <==> InsideSpan(p, d) || (d <= |p.display| && IsBoundary(p.display, d))
  {
    hide Projects, FirstAt, CountAt, ValidCaret, IsBoundary, DisplayIndex;
    SpansApart(p, c, rendered);
    for i := 0 to |p.atoms|
      invariant forall j :: 0 <= j < i ==> !(p.atoms[j].start <= d < p.atoms[j].end)
    {
      var atom := p.atoms[i];
      if atom.start <= d < atom.end {
        SpanGaps(p, c, rendered, i);
        OnlySpan(p, c, rendered, d, i);
        var half := (atom.end - atom.start + 1) / 2;
        var ordinal := if d < atom.start + half then atom.index else atom.index + 1;
        return Some(InlinePoint(p.node, atom.offset, ordinal, BeforeGlyph));
      }
    }
    r := PointForBoundary(p, d, affinity, c, rendered);
  }

  // The span at a byte is the only one there, and its start shows a boundary.
  lemma {:induction false} OnlySpan(p: Projection, c: InlineContent, rendered: seq<seq<byte>>, d: nat, i: nat)
    requires Projects(p, c, rendered) && i < |p.atoms| && p.atoms[i].start <= d < p.atoms[i].end
    ensures forall j :: 0 <= j < |p.atoms| && p.atoms[j].start <= d < p.atoms[j].end ==> j == i
    ensures InsideSpan(p, d) <==> p.atoms[i].start < d
    ensures d == p.atoms[i].start ==> d <= |p.display| && IsBoundary(p.display, d)
  {
    hide Projects, FirstAt, CountAt, IsBoundary, DisplayIndex;
    SpansApart(p, c, rendered);
    SpanGaps(p, c, rendered, i);
    CaretOnBoundary(p, c, rendered, Caret(p.atoms[i].offset, p.atoms[i].index));
  }
}
