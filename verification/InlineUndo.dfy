// The generated inverse steps undo text and mark edits exactly.
module InlineUndo {
  import opened Wrappers
  import opened Numbers
  import opened Text
  import opened Marks
  import opened Content
  import opened InlineEdit
  import opened Flat
  import opened InlineLaws
  import opened InputMarks
  import opened Nodes
  import opened Mapping
  import opened Steps
  import opened Inverse

  // ----- mark operations, character by character

  function RunMarks(cs: seq<Char>, ops: seq<MarkOp>): (r: seq<Char>)
    ensures |r| == |cs|
    decreases |ops|
  {
    if ops == [] then cs else RunMarks(ChangeChars(cs, ops[0].start, ops[0].end, ops[0].change), ops[1..])
  }

  // What the operations do to the marks of one position.
  function MarksAt(marks: MarkSet, i: nat, ops: seq<MarkOp>): MarkSet
    decreases |ops|
  {
    if ops == [] then marks
    else MarksAt(if ops[0].start <= i < ops[0].end then Change(marks, ops[0].change) else marks, i, ops[1..])
  }

  lemma {:induction false} RunMarksAtPosition(cs: seq<Char>, ops: seq<MarkOp>, i: nat)
    requires i < |cs|
    ensures RunMarks(cs, ops)[i] == Char(cs[i].b, MarksAt(cs[i].marks, i, ops))
    decreases |ops|
  {
    hide Change, ChangeChars;
    if ops != [] {
      RunMarksAtPosition(ChangeChars(cs, ops[0].start, ops[0].end, ops[0].change), ops[1..], i);
    }
  }

  lemma {:induction false} MarksAtConcat(marks: MarkSet, i: nat, a: seq<MarkOp>, b: seq<MarkOp>)
    ensures MarksAt(marks, i, a + b) == MarksAt(MarksAt(marks, i, a), i, b)
    decreases |a|
  {
    hide Change;
    if a == [] {
      assert a + b == b;
    } else {
      var next := if a[0].start <= i < a[0].end then Change(marks, a[0].change) else marks;
      MarksAtConcat(next, i, a[1..], b);
      assert (a + b)[0] == a[0] && (a + b)[1..] == a[1..] + b;
    }
  }

  lemma {:induction false} MarksAtOutside(marks: MarkSet, i: nat, ops: seq<MarkOp>)
    requires forall k :: 0 <= k < |ops| ==> !(ops[k].start <= i < ops[k].end)
    ensures MarksAt(marks, i, ops) == marks
    decreases |ops|
  {
    if ops != [] {
      MarksAtOutside(marks, i, ops[1..]);
    }
  }

  function StripAll(base: MarkSet, marks: seq<Mark>): (r: MarkSet)
    ensures base.Valid() ==> r.Valid()
    decreases |marks|
  {
    if marks == [] then base else StripAll(Strip(base, marks[0].Kind()), marks[1..])
  }

  function AddAll(base: MarkSet, marks: seq<Mark>): (r: MarkSet)
    ensures base.Valid() ==> r.Valid()
    decreases |marks|
  {
    if marks == [] then base else AddAll(With(base, marks[0]), marks[1..])
  }

  lemma {:induction false} StripOpsAt(base: MarkSet, marks: seq<Mark>, start: nat, end: nat, i: nat)
    requires start <= i < end
    ensures MarksAt(base, i, StripOps(marks, start, end)) == StripAll(base, marks)
    decreases |marks|
  {
    hide Strip, With;
    if marks != [] {
      StripOpsAt(Strip(base, marks[0].Kind()), marks[1..], start, end, i);
      assert StripOps(marks, start, end)[1..] == StripOps(marks[1..], start, end);
    }
  }

  lemma {:induction false} AddOpsAt(base: MarkSet, marks: seq<Mark>, start: nat, end: nat, i: nat)
    requires start <= i < end
    ensures MarksAt(base, i, AddOps(marks, start, end)) == AddAll(base, marks)
    decreases |marks|
  {
    hide Strip, With;
    if marks != [] {
      AddOpsAt(With(base, marks[0]), marks[1..], start, end, i);
      assert AddOps(marks, start, end)[1..] == AddOps(marks[1..], start, end);
    }
  }

  lemma {:induction false} StripAllMembers(base: MarkSet, marks: seq<Mark>)
    ensures forall m :: m in StripAll(base, marks).marks <==> m in base.marks && !ContainsKind(marks, m.Kind())
    decreases |marks|
  {
    hide Strip;
    if marks != [] {
      StripAllMembers(Strip(base, marks[0].Kind()), marks[1..]);
      forall m: Mark
        ensures ContainsKind(marks, m.Kind()) <==> m.Kind() == marks[0].Kind() || ContainsKind(marks[1..], m.Kind())
      {
        KindOfHeadOrTail(marks, m.Kind());
      }
    }
  }

  lemma KindOfHeadOrTail(marks: seq<Mark>, kind: MarkKind)
    requires marks != []
    ensures ContainsKind(marks, kind) <==> kind == marks[0].Kind() || ContainsKind(marks[1..], kind)
  {
    assert marks == [marks[0]] + marks[1..];
    if kind == marks[0].Kind() {
      assert marks[0] in marks;
    }
    if ContainsKind(marks[1..], kind) {
      var m :| m in marks[1..] && m.Kind() == kind;
      assert m in marks;
    }
  }

  lemma {:induction false} AddAllMembers(base: MarkSet, marks: seq<Mark>)
    requires Canonical(marks)
    ensures forall m :: m in AddAll(base, marks).marks <==>
      m in marks || (m in base.marks && !ContainsKind(marks, m.Kind()))
    decreases |marks|
  {
    hide With;
    if marks != [] {
      AddAllMembers(With(base, marks[0]), marks[1..]);
      assert marks == [marks[0]] + marks[1..];
      forall m: Mark
        ensures ContainsKind(marks, m.Kind()) <==> m.Kind() == marks[0].Kind() || ContainsKind(marks[1..], m.Kind())
        ensures m in marks[1..] ==> m.Kind() != marks[0].Kind()
      {
        KindOfHeadOrTail(marks, m.Kind());
      }
    }
  }

  // Stripping every inherited mark and re-adding the old ones gives the old set.
  lemma {:induction false} RestoredMarks(inherited: MarkSet, original: MarkSet)
    requires inherited.Valid() && original.Valid()
    ensures AddAll(StripAll(inherited, inherited.marks), original.marks) == original
  {
    hide With, Strip, AddAll, StripAll;
    StripAllMembers(inherited, inherited.marks);
    var bare := StripAll(inherited, inherited.marks);
    AddAllMembers(bare, original.marks);
    forall m | m in inherited.marks
      ensures ContainsKind(inherited.marks, m.Kind())
    {
    }
    MarkSetExtensional(AddAll(bare, original.marks).marks, original.marks);
  }

  lemma {:induction false} SelectedOne(marks: seq<Mark>, kind: MarkKind)
    ensures ContainsKind(marks, kind) ==>
      |Selected(marks, Some(kind))| == 1 && Selected(marks, Some(kind))[0] in marks
      && Selected(marks, Some(kind))[0].Kind() == kind
    ensures !ContainsKind(marks, kind) ==> Selected(marks, Some(kind)) == []
  {
    if marks != [] {
      KindOfHeadOrTail(marks, kind);
      SelectedOne(marks[1..], kind);
      assert marks == [marks[0]] + marks[1..];
    }
  }

  // Reviving the mark of a stripped kind gives the old set.
  lemma {:induction false} RevivedMarks(original: MarkSet, kind: MarkKind)
    requires original.Valid()
    ensures AddAll(Strip(original, kind), Selected(original.marks, Some(kind))) == original
  {
    hide With, Strip;
    SelectedOne(original.marks, kind);
    if ContainsKind(original.marks, kind) {
      WithUndoesStrip(original, Selected(original.marks, Some(kind))[0]);
    } else {
      StripAbsent(original, kind);
    }
  }

  // ----- span by span

  lemma {:induction false} SpanOpsWithin(cs: seq<Char>, spans: seq<InlineSpan>, start: nat, end: nat,
                                         kind: Option<MarkKind>)
    requires SpansTile(cs, spans, start, end)
    ensures forall k :: 0 <= k < |SpanOps(spans, kind)| ==>
      start <= SpanOps(spans, kind)[k].start && SpanOps(spans, kind)[k].end <= end
    ensures start <= end
    decreases |spans|
  {
    hide Marked, Selected;
    if spans != [] {
      var last := spans[|spans| - 1];
      SpanOpsWithin(cs, spans[..|spans| - 1], start, last.start, kind);
    }
  }

  lemma {:induction false} SpanOpsAt(cs: seq<Char>, spans: seq<InlineSpan>, start: nat, end: nat,
                                     kind: Option<MarkKind>, base: MarkSet, i: nat)
    requires SpansTile(cs, spans, start, end) && start <= i < end <= |cs|
    ensures MarksAt(base, i, SpanOps(spans, kind)) == AddAll(base, Selected(cs[i].marks.marks, kind))
    decreases |spans|
  {
    hide Marked, Selected, AddAll, MarksAt;
    var last := spans[|spans| - 1];
    var front := spans[..|spans| - 1];
    var ops := AddOps(Selected(last.marks.marks, kind), last.start, last.end);
    MarksAtConcat(base, i, SpanOps(front, kind), ops);
    SpanOpsWithin(cs, front, start, last.start, kind);
    if i >= last.start {
      MarksAtOutside(base, i, SpanOps(front, kind));
      AddOpsAt(base, Selected(last.marks.marks, kind), last.start, last.end, i);
      assert cs[i] == cs[last.start..end][i - last.start];
      MarkedAt(last.text, last.marks, i - last.start);
    } else {
      SpanOpsAt(cs, front, start, last.start, kind, base, i);
      MarksAtOutside(MarksAt(base, i, SpanOps(front, kind)), i, ops);
    }
  }

  ghost predicate BoundedSpans(cs: seq<Char>, spans: seq<InlineSpan>) {
    forall k :: 0 <= k < |spans| ==>
      spans[k].start <= spans[k].end && Boundary(cs, spans[k].start) && Boundary(cs, spans[k].end)
  }

  lemma SpanOfRunBounded(cs: seq<Char>, run: TextRun, lo: nat, start: nat, end: nat)
    requires Boundary(cs, lo) && Boundary(cs, lo + |run.text|) && Boundary(cs, start) && Boundary(cs, end)
    ensures BoundedSpans(cs, SpanOfRun(run, lo, start, end))
  {
    hide Boundary, BoundedSpans;
    var from, to := Max(start, lo), Min(lo + |run.text|, end);
    if from < to {
      OneBounded(cs, InlineSpan(from, to, run.marks, run.text[from - lo..to - lo]));
    } else {
      NoneBounded(cs);
    }
  }

  lemma OneBounded(cs: seq<Char>, span: InlineSpan)
    requires span.start <= span.end && Boundary(cs, span.start) && Boundary(cs, span.end)
    ensures BoundedSpans(cs, [span])
  {
    hide Boundary;
  }

  lemma BoundedConcat(cs: seq<Char>, a: seq<InlineSpan>, b: seq<InlineSpan>)
    requires BoundedSpans(cs, a) && BoundedSpans(cs, b)
    ensures BoundedSpans(cs, a + b)
  {
    hide Boundary;
  }

  lemma NoneBounded(cs: seq<Char>)
    ensures BoundedSpans(cs, [])
  {}

  lemma {:induction false} SpansBounded(runs: seq<TextRun>, k: nat, start: nat, end: nat)
    requires CanonicalRuns(runs) && CharsOk(Chars(runs)) && k <= |runs|
    requires Boundary(Chars(runs), start) && Boundary(Chars(runs), end)
    ensures BoundedSpans(Chars(runs), SpansOf(runs[..k], start, end))
  {
    hide Chars, Marked, Boundary, CanonicalRuns, CharsOk, SpansOf, SpanOfRun, BoundedSpans;
    if k == 0 {
      NoSpans(start, end);
      NoneBounded(Chars(runs));
      assert runs[..0] == [];
    } else {
      SpansBounded(runs, k - 1, start, end);
      SpansOfPush(runs, k - 1, start, end);
      RunIsSlice(runs, k - 1);
      RunStartIsBoundary(runs, k - 1);
      if k < |runs| {
        RunStartIsBoundary(runs, k);
      } else {
        assert runs[..k] == runs;
        EndIsBoundary(Chars(runs));
      }
      var lo := |Chars(runs[..k - 1])|;
      SpanOfRunBounded(Chars(runs), runs[k - 1], lo, start, end);
      BoundedConcat(Chars(runs), SpansOf(runs[..k - 1], start, end), SpanOfRun(runs[k - 1], lo, start, end));
    }
  }

  lemma EndIsBoundary(cs: seq<Char>)
    ensures Boundary(cs, |cs|)
  {}

  ghost predicate BoundedOps(cs: seq<Char>, ops: seq<MarkOp>) {
    forall k :: 0 <= k < |ops| ==> RangeCheck(cs, ops[k].start, ops[k].end).Pass?
  }

  lemma {:induction false} SpanOpsBounded(cs: seq<Char>, spans: seq<InlineSpan>, kind: Option<MarkKind>)
    requires BoundedSpans(cs, spans)
    ensures BoundedOps(cs, SpanOps(spans, kind))
  {
    hide Boundary, Selected, RangeCheck;
    if spans != [] {
      var last := spans[|spans| - 1];
      SpanOpsBounded(cs, spans[..|spans| - 1], kind);
      BoundedRange(cs, last.start, last.end);
    }
  }

  lemma BoundedRange(cs: seq<Char>, start: nat, end: nat)
    requires start <= end && Boundary(cs, start) && Boundary(cs, end)
    ensures RangeCheck(cs, start, end).Pass?
  {}

  // ----- running steps on one content

  // What one text or mark step makes of the content of its node.
  function EditInline(store: Store, c: InlineContent, step: TransactionStep): Result<InlineContent> {
    match step
    case ReplaceTextStep(_, start, end, text) => TextReplaced(c, start, end, text)
    case AddMarkStep(_, start, end, mark) => MarksChanged(c, start, end, Add(mark))
    case RemoveMarkStep(_, start, end, kind) => MarksChanged(c, start, end, Remove(kind))
    case ReplaceInlineTextStep(at, end, text) =>
      :- RangeCheck(Chars(c.runs), at.offset, end);
      var marks :- InheritedMarks(store, c, CaretOf(at));
      var next :- InlineTextReplaced(c, at.offset, at.ordinal, end, text, marks);
      // The engine also reads what undo will inherit.
      var restored :- InheritedMarks(store, next, CaretOf(at));
      Ok(next)
    case _ => Err(InvalidTransaction)
  }

  function RunInline(store: Store, c: InlineContent, steps: seq<TransactionStep>): Result<InlineContent>
    decreases |steps|
  {
    if steps == [] then Ok(c)
    else
      var next :- EditInline(store, c, steps[0]);
      RunInline(store, next, steps[1..])
  }

  // Mark steps over in-text ranges all succeed and only change marks.
  lemma {:induction false} RunMarkSteps(store: Store, c: InlineContent, node: NodeId, ops: seq<MarkOp>)
    requires WfContent(c) && BoundedOps(Chars(c.runs), ops)
    ensures RunInline(store, c, StepsOf(node, ops)) == Ok(InlineContent(Group(RunMarks(Chars(c.runs), ops)), c.atoms))
    decreases |ops|
  {
    hide Chars, ChangeChars, CanonicalRuns, CharsOk, Boundary, AnchoredAtoms;
    var cs := Chars(c.runs);
    if ops == [] {
      CanonicalRunsUnique(c.runs, Group(cs));
    } else {
      var op := ops[0];
      var next := InlineContent(Group(ChangeChars(cs, op.start, op.end, op.change)), c.atoms);
      ChangedIsWf(c, op);
      assert EditInline(store, c, StepOf(node, op)) == Ok(next);
      SameBounds(cs, op, ops);
      assert StepsOf(node, ops)[1..] == StepsOf(node, ops[1..]);
      RunMarkSteps(store, next, node, ops[1..]);
    }
  }

  lemma {:induction false} ChangedIsWf(c: InlineContent, op: MarkOp)
    requires WfContent(c) && RangeCheck(Chars(c.runs), op.start, op.end).Pass?
    ensures WfContent(InlineContent(Group(ChangeChars(Chars(c.runs), op.start, op.end, op.change)), c.atoms))
  {
    hide Chars, ChangeChars, CanonicalRuns, CharsOk, Boundary;
    ChangeKeepsText(Chars(c.runs), op.start, op.end, op.change);
  }

  lemma {:induction false} SameBounds(cs: seq<Char>, op: MarkOp, ops: seq<MarkOp>)
    requires CharsOk(cs) && BoundedOps(cs, ops) && ops != [] && op == ops[0]
    ensures BoundedOps(ChangeChars(cs, op.start, op.end, op.change), ops[1..])
  {
    hide ChangeChars, CharsOk, Boundary;
    ChangeKeepsText(cs, op.start, op.end, op.change);
    var next := ChangeChars(cs, op.start, op.end, op.change);
    forall k | 0 <= k < |ops[1..]|
      ensures RangeCheck(next, ops[1..][k].start, ops[1..][k].end).Pass?
    {
      assert RangeCheck(cs, ops[k + 1].start, ops[k + 1].end).Pass?;
    }
  }

  // ----- the three undo theorems

  // Re-marking the restored bytes of [start, end) gives back every character.
  lemma {:induction false} RemarkedText(cs: seq<Char>, inherited: MarkSet, spans: seq<InlineSpan>, start: nat, end: nat)
    requires CharsOk(cs) && SpansTile(cs, spans, start, end) && end <= |cs| && inherited.Valid()
    ensures start <= end
    ensures var mid := SpliceChars(cs, start, end, Bytes(cs[start..end]), inherited);
      RunMarks(mid, StripOps(inherited.marks, start, end) + SpanOps(spans, None)) == cs
  {
    hide SpanOps, StripOps, MarksAt, RunMarks, SpansTile, ValidUtf8, AddAll, StripAll, Marked;
    SpanOpsWithin(cs, spans, start, end, None);
    var text := Bytes(cs[start..end]);
    var mid := SpliceChars(cs, start, end, text, inherited);
    var ops := StripOps(inherited.marks, start, end) + SpanOps(spans, None);
    forall i | 0 <= i < |cs|
      ensures RunMarks(mid, ops)[i] == cs[i]
    {
      RunMarksAtPosition(mid, ops, i);
      MarksAtConcat(mid[i].marks, i, StripOps(inherited.marks, start, end), SpanOps(spans, None));
      if start <= i < end {
        MarkedAt(text, inherited, i - start);
        assert mid[i] == Char(cs[i].b, inherited);
        StripOpsAt(inherited, inherited.marks, start, end, i);
        SpanOpsAt(cs, spans, start, end, None, StripAll(inherited, inherited.marks), i);
        RestoredMarks(inherited, cs[i].marks);
      } else {
        assert mid[i] == cs[i];
        StripOpsElsewhere(cs[i].marks, inherited.marks, start, end, i);
        MarksAtOutside(cs[i].marks, i, SpanOps(spans, None));
      }
    }
  }

  lemma StripOpsElsewhere(base: MarkSet, marks: seq<Mark>, start: nat, end: nat, i: nat)
    requires !(start <= i < end)
    ensures MarksAt(base, i, StripOps(marks, start, end)) == base
  {
    hide MarksAt;
    MarksAtOutside(base, i, StripOps(marks, start, end));
  }

  // The restoring replacement puts the old bytes and every atom back in place.
  lemma {:induction false} BackReplace(c: InlineContent, start: nat, seam: nat, end: nat, text: seq<byte>,
                                       marks: MarkSet, inherited: MarkSet)
    requires WfContent(c) && ValidUtf8(text) && marks.Valid()
    requires InlineTextReplaced(c, start, seam, end, text, marks).Ok?
    ensures start <= end <= |Chars(c.runs)|
    ensures var cs := Chars(c.runs);
      var next := InlineTextReplaced(c, start, seam, end, text, marks).value;
      InlineTextReplaced(next, start, seam, start + |text|, Bytes(cs[start..end]), inherited)
        == Ok(InlineContent(Group(SpliceChars(cs, start, end, Bytes(cs[start..end]), inherited)), c.atoms))
  {
    hide Chars, CanonicalRuns, ValidUtf8, CharsOk, FirstAt, CountAt, MovedAtoms, Boundary, ClearFrom, Bytes;
    var cs := Chars(c.runs);
    AcceptedReplacement(c, start, seam, end, text, marks);
    var next := InlineTextReplaced(c, start, seam, end, text, marks).value;
    var cut := FirstAt(c.atoms, start) + seam;
    var original := Bytes(cs[start..end]);
    MovedBack(c.atoms, start, seam, end, |text|);
    BackRange(cs, start, end, text, marks);
    SpliceBack(cs, start, end, text, marks, original, inherited);
  }

  lemma BackRange(cs: seq<Char>, start: nat, end: nat, text: seq<byte>, marks: MarkSet)
    requires CharsOk(cs) && RangeCheck(cs, start, end).Pass? && ValidUtf8(text)
    ensures start <= end <= |cs|
    ensures RangeCheck(SpliceChars(cs, start, end, text, marks), start, start + |text|).Pass?
  {
    hide ValidUtf8, CharsOk, Boundary, SpliceChars;
    RangeInText(cs, start, end);
    SpliceBoundaries(cs, start, end, text, marks);
    var next := SpliceChars(cs, start, end, text, marks);
    assert Boundary(next, start);
    assert Boundary(next, end - end + start + |text|);
    BoundedRange(next, start, start + |text|);
  }

  lemma SpliceBack(cs: seq<Char>, start: nat, end: nat, text: seq<byte>, marks: MarkSet, back: seq<byte>,
                   inherited: MarkSet)
    requires start <= end <= |cs|
    ensures SpliceChars(SpliceChars(cs, start, end, text, marks), start, start + |text|, back, inherited)
      == SpliceChars(cs, start, end, back, inherited)
  {
    hide Marked;
    var next := SpliceChars(cs, start, end, text, marks);
    assert next[..start] == cs[..start] && next[start + |text|..] == cs[end..];
  }

  lemma {:induction false} MovedBack(atoms: seq<Placement>, start: nat, seam: nat, end: nat, len: nat)
    requires Accepted(atoms, start, seam, end)
    ensures var cut := FirstAt(atoms, start) + seam;
      var moved := MovedAtoms(atoms, cut, start, end, len);
      && seam <= CountAt(moved, start) && FirstAt(moved, start) == FirstAt(atoms, start)
      && ClearFrom(moved, cut, start + len)
      && MovedAtoms(moved, cut, start, start + len, end - start) == atoms
  {
    hide FirstAt, CountAt, MovedAtoms, Accepted;
    SeamStays(atoms, start, seam, end, len);
    var cut := FirstAt(atoms, start) + seam;
    var moved := MovedAtoms(atoms, cut, start, end, len);
    var back := MovedAtoms(moved, cut, start, start + len, end - start);
    forall i | 0 <= i < |atoms|
      ensures back[i] == atoms[i]
    {
      assert moved[i] == MovedAtom(atoms[i], i < cut, start, end, len);
    }
  }

  lemma {:induction false} SeamStays(atoms: seq<Placement>, start: nat, seam: nat, end: nat, len: nat)
    requires Accepted(atoms, start, seam, end)
    ensures var cut := FirstAt(atoms, start) + seam;
      var moved := MovedAtoms(atoms, cut, start, end, len);
      && start <= end && ClearFrom(atoms, cut, end)
      && seam <= CountAt(moved, start) && FirstAt(moved, start) == FirstAt(atoms, start)
      && ClearFrom(moved, cut, start + len)
  {
    hide FirstAt, CountAt;
    MovedCounts(atoms, start, seam, end, len, start);
    ClearEnds(atoms, start, seam, end);
    CountIsGap(atoms, start);
  }

  // The caret of the seam survives the edit.
  lemma {:induction false} SeamCaretStays(c: InlineContent, start: nat, seam: nat, end: nat, text: seq<byte>,
                                          marks: MarkSet)
    requires WfContent(c) && ValidUtf8(text) && marks.Valid()
    requires InlineTextReplaced(c, start, seam, end, text, marks).Ok?
    ensures var next := InlineTextReplaced(c, start, seam, end, text, marks).value;
      && WfContent(next) && ValidCaret(next, Caret(start, seam)) && ValidCaret(c, Caret(start, seam))
      && (forall store :: AtomsKnown(store, c.atoms) ==> AtomsKnown(store, next.atoms))
  {
    hide Chars, CanonicalRuns, ValidUtf8, CharsOk, FirstAt, CountAt, MovedAtoms, Boundary, SpliceChars, AtomsKnown;
    hide Group;
    hide DistinctAtoms, AnchoredAtoms, ClearFrom, CutsAtoms;
    AcceptedReplacement(c, start, seam, end, text, marks);
    CaretCutsAccepted(c.atoms, start, seam, end);
    MovedAtomsOk(c, FirstAt(c.atoms, start) + seam, start, end, text, marks);
    SeamStays(c.atoms, start, seam, end, |text|);
    BackRange(Chars(c.runs), start, end, text, marks);
    RangeInText(Chars(c.runs), start, end);
    RangeInText(SpliceChars(Chars(c.runs), start, end, text, marks), start, start + |text|);
    var next := InlineTextReplaced(c, start, seam, end, text, marks).value;
    forall store | AtomsKnown(store, c.atoms)
      ensures AtomsKnown(store, next.atoms)
    {
      SameIdentitiesKnown(store, c.atoms, next.atoms);
    }
  }

  lemma SameIdentitiesKnown(store: Store, a: seq<Placement>, b: seq<Placement>)
    requires |a| == |b| && AtomsKnown(store, a)
    requires forall i :: 0 <= i < |a| ==> a[i].atom == b[i].atom
    ensures AtomsKnown(store, b)
  {
    hide AtomMarks;
  }

  lemma RunFirst(store: Store, c: InlineContent, step: TransactionStep, rest: seq<TransactionStep>, next: InlineContent)
    requires EditInline(store, c, step) == Ok(next)
    ensures RunInline(store, c, [step] + rest) == RunInline(store, next, rest)
  {
    assert ([step] + rest)[1..] == rest;
  }

  // The mark steps of a restoring inverse, run on the restored bytes.
  lemma {:induction false} RemarkContent(store: Store, c: InlineContent, node: NodeId, inherited: MarkSet,
                                         start: nat, end: nat)
    requires WfContent(c) && inherited.Valid() && RangeCheck(Chars(c.runs), start, end).Pass?
    ensures start <= end <= |Chars(c.runs)|
    ensures var cs := Chars(c.runs);
      var mid := InlineContent(Group(SpliceChars(cs, start, end, Bytes(cs[start..end]), inherited)), c.atoms);
      RunInline(store, mid, StepsOf(node, StripOps(inherited.marks, start, end))
                            + StepsOf(node, SpanOps(SpansOf(c.runs, start, end), None))) == Ok(c)
  {
    hide Chars, CanonicalRuns, ValidUtf8, CharsOk, Boundary, SpliceChars, SpansOf, SpanOps, StripOps, StepsOf;
    hide SpansTile, RangeCheck, RunInline;
    var cs := Chars(c.runs);
    RangeInText(cs, start, end);
    var spans := SpansOf(c.runs, start, end);
    var text := Bytes(cs[start..end]);
    SpansCover(c.runs, start, end);
    assert c.runs[..|c.runs|] == c.runs;
    SpansBounded(c.runs, |c.runs|, start, end);
    SpanOpsBounded(cs, spans, None);
    StripOpsBounded(cs, inherited.marks, start, end);
    var ops := StripOps(inherited.marks, start, end) + SpanOps(spans, None);
    StepsOfConcat(node, StripOps(inherited.marks, start, end), SpanOps(spans, None));
    RestoredWf(c, start, end, inherited);
    SameBytesSameBounds(cs, start, end, inherited, ops);
    RunMarkSteps(store, InlineContent(Group(SpliceChars(cs, start, end, text, inherited)), c.atoms), node, ops);
    RemarkedText(cs, inherited, spans, start, end);
    CanonicalRunsUnique(c.runs, Group(cs));
  }

  lemma StripOpsBounded(cs: seq<Char>, marks: seq<Mark>, start: nat, end: nat)
    requires RangeCheck(cs, start, end).Pass?
    ensures BoundedOps(cs, StripOps(marks, start, end))
  {}

  // Splicing a stretch's own bytes back in keeps every byte.
  lemma RestoredBytes(cs: seq<Char>, start: nat, end: nat, inherited: MarkSet)
    requires start <= end <= |cs|
    ensures var mid := SpliceChars(cs, start, end, Bytes(cs[start..end]), inherited);
      |mid| == |cs| && forall i :: 0 <= i < |cs| ==> mid[i].b == cs[i].b
  {}

  lemma SameBytesSameBoundaries(cs: seq<Char>, mid: seq<Char>)
    requires |mid| == |cs| && forall i :: 0 <= i < |cs| ==> mid[i].b == cs[i].b
    ensures forall x :: Boundary(cs, x) <==> Boundary(mid, x)
  {}

  lemma {:induction false} SameBytesSameBounds(cs: seq<Char>, start: nat, end: nat, inherited: MarkSet,
                                               ops: seq<MarkOp>)
    requires start <= end <= |cs| && BoundedOps(cs, ops)
    ensures BoundedOps(SpliceChars(cs, start, end, Bytes(cs[start..end]), inherited), ops)
  {
    hide SpliceChars, Boundary;
    var mid := SpliceChars(cs, start, end, Bytes(cs[start..end]), inherited);
    RestoredBytes(cs, start, end, inherited);
    SameBytesSameBoundaries(cs, mid);
    forall k | 0 <= k < |ops|
      ensures RangeCheck(mid, ops[k].start, ops[k].end).Pass?
    {
      assert RangeCheck(cs, ops[k].start, ops[k].end).Pass?;
    }
  }

  lemma {:induction false} RestoredWf(c: InlineContent, start: nat, end: nat, inherited: MarkSet)
    requires WfContent(c) && inherited.Valid() && RangeCheck(Chars(c.runs), start, end).Pass?
    ensures start <= end <= |Chars(c.runs)|
    ensures WfContent(InlineContent(
      Group(SpliceChars(Chars(c.runs), start, end, Bytes(Chars(c.runs)[start..end]), inherited)), c.atoms))
  {
    hide Chars, CanonicalRuns, ValidUtf8, Group, SpliceChars, Boundary;
    var cs := Chars(c.runs);
    RangeInText(cs, start, end);
    var text := Bytes(cs[start..end]);
    assert text == Bytes(cs)[start..end];
    SliceValid(Bytes(cs), start, end);
    SpliceKeepsText(cs, start, end, text, inherited);
    var mid := SpliceChars(cs, start, end, text, inherited);
    RestoredBytes(cs, start, end, inherited);
    SameBytesSameBoundaries(cs, mid);
    assert AnchoredAtoms(mid, c.atoms);
  }

  // Running the whole inverse, once its first step is known to restore the bytes.
  lemma {:induction false} RunRestoringInverse(store: Store, c: InlineContent, next: InlineContent, node: NodeId,
                                               start: nat, end: nat, restored: MarkSet, back: TransactionStep)
    requires WfContent(c) && restored.Valid() && RangeCheck(Chars(c.runs), start, end).Pass?
    requires start <= end <= |Chars(c.runs)|
    requires EditInline(store, next, back)
      == Ok(InlineContent(Group(SpliceChars(Chars(c.runs), start, end, Bytes(Chars(c.runs)[start..end]), restored)),
          c.atoms))
    ensures var spans := SpansOf(c.runs, start, end);
      && SpansText(spans) == Bytes(Chars(c.runs)[start..end])
      && |SpansText(spans)| == end - start
      && (spans == [] ==> start == end && RunInline(store, next, [back]) == Ok(c))
      && RunInline(store, next, [back] + StepsOf(node, StripOps(restored.marks, start, end))
                                + StepsOf(node, SpanOps(spans, None))) == Ok(c)
  {
    hide *;
    var cs := Chars(c.runs);
    var spans := SpansOf(c.runs, start, end);
    SpansCover(c.runs, start, end);
    SpansTextIsBytes(cs, spans, start, end);
    BytesLength(cs[start..end]);
    var mid := InlineContent(Group(SpliceChars(cs, start, end, Bytes(cs[start..end]), restored)), c.atoms);
    if spans == [] {
      EmptyCover(cs, start, end);
      SpliceNothing(c, start, restored);
      RunFirst(store, next, back, [], mid);
      RunNothing(store, mid);
      assert [back] + [] == [back];
    }
    var strip, add := StepsOf(node, StripOps(restored.marks, start, end)), StepsOf(node, SpanOps(spans, None));
    RunFirst(store, next, back, strip + add, mid);
    RemarkContent(store, c, node, restored, start, end);
    assert [back] + (strip + add) == [back] + strip + add;
  }

  // Undo of an accepted mixed-inline replacement is exact.
  lemma {:induction false} UndoInlineReplace(store: Store, c: InlineContent, at: InlinePoint, end: nat, text: seq<byte>)
    requires WfContent(c) && ValidUtf8(text) && AtomsKnown(store, c.atoms)
    requires EditInline(store, c, ReplaceInlineTextStep(at, end, text)).Ok?
    ensures var next := EditInline(store, c, ReplaceInlineTextStep(at, end, text)).value;
      var restored := InheritedMarks(store, next, CaretOf(at));
      && WfContent(next) && restored.Ok?
      && RunInline(store, next,
                   ReplaceInlineTextInverse(at, |text|, restored.value, SpansOf(c.runs, at.offset, end))) == Ok(c)
  {
    hide Chars, CanonicalRuns, ValidUtf8, CharsOk, Boundary, SpliceChars, SpansOf, SpanOps, StripOps, StepsOf;
    hide RangeCheck, RunInline, InlineTextReplaced, InheritedMarks, Bytes, SpansText;
    var cs := Chars(c.runs);
    RangeInText(cs, at.offset, end);
    var marks := InheritedMarks(store, c, CaretOf(at)).value;
    InheritedNeedsCaret(store, c, CaretOf(at));
    InheritedIsValid(store, c, CaretOf(at));
    SeamCaretStays(c, at.offset, at.ordinal, end, text, marks);
    var next := InlineTextReplaced(c, at.offset, at.ordinal, end, text, marks).value;
    InheritedIsValid(store, next, CaretOf(at));
    var restored := InheritedMarks(store, next, CaretOf(at)).value;
    BackStep(store, c, at, end, text, marks, restored);
    var back := ReplaceInlineTextStep(at, at.offset + |text|, Bytes(cs[at.offset..end]));
    RunRestoringInverse(store, c, next, at.node, at.offset, end, restored, back);
  }

  lemma InheritedNeedsCaret(store: Store, c: InlineContent, p: Caret)
    requires InheritedMarks(store, c, p).Ok?
    ensures ValidCaret(c, p)
  {
    hide Chars, LeftContribution, RightMarks, SeamLeft;
  }

  lemma BytesLength(cs: seq<Char>)
    ensures |Bytes(cs)| == |cs|
  {}

  lemma EmptyCover(cs: seq<Char>, start: nat, end: nat)
    requires SpansTile(cs, [], start, end)
    ensures start == end
  {}

  lemma RunNothing(store: Store, c: InlineContent)
    ensures RunInline(store, c, []) == Ok(c)
  {}

  lemma SpliceNothing(c: InlineContent, at: nat, marks: MarkSet)
    requires WfContent(c) && at <= |Chars(c.runs)|
    ensures InlineContent(Group(SpliceChars(Chars(c.runs), at, at, Bytes(Chars(c.runs)[at..at]), marks)), c.atoms) == c
  {
    hide Chars, CharsOk;
    var cs := Chars(c.runs);
    assert SpliceChars(cs, at, at, Bytes(cs[at..at]), marks) == cs;
    CanonicalRunsUnique(c.runs, Group(cs));
  }

  // The first inverse step passes every check of the engine.
  lemma {:induction false} BackStep(store: Store, c: InlineContent, at: InlinePoint, end: nat, text: seq<byte>,
                                    marks: MarkSet, restored: MarkSet)
    requires WfContent(c) && ValidUtf8(text) && marks.Valid() && AtomsKnown(store, c.atoms)
    requires InlineTextReplaced(c, at.offset, at.ordinal, end, text, marks).Ok?
    requires restored.Valid() && RangeCheck(Chars(c.runs), at.offset, end).Pass?
    requires InheritedMarks(store, InlineTextReplaced(c, at.offset, at.ordinal, end, text, marks).value, CaretOf(at))
      == Ok(restored)
    ensures at.offset <= end <= |Chars(c.runs)|
    ensures var cs := Chars(c.runs);
      var next := InlineTextReplaced(c, at.offset, at.ordinal, end, text, marks).value;
      var original := Bytes(cs[at.offset..end]);
      EditInline(store, next, ReplaceInlineTextStep(at, at.offset + |text|, original))
        == Ok(InlineContent(Group(SpliceChars(cs, at.offset, end, original, restored)), c.atoms))
  {
    hide Chars, CanonicalRuns, ValidUtf8, CharsOk, Boundary, SpliceChars, RangeCheck, InheritedMarks, MovedAtoms;
    var cs := Chars(c.runs);
    RangeInText(cs, at.offset, end);
    BackRange(cs, at.offset, end, text, marks);
    BackReplace(c, at.offset, at.ordinal, end, text, marks, restored);
    SeamCaretStays(c, at.offset, at.ordinal, end, text, marks);
    RestoredCaret(c, at.offset, end, restored, CaretOf(at));
    RestoredWf(c, at.offset, end, restored);
    InheritedIsValid(store,
        InlineContent(Group(SpliceChars(cs, at.offset, end, Bytes(cs[at.offset..end]), restored)), c.atoms),
            CaretOf(at));
  }

  lemma RestoredCaret(c: InlineContent, start: nat, end: nat, marks: MarkSet, p: Caret)
    requires start <= end <= |Chars(c.runs)| && ValidCaret(c, p) && p.offset == start
    ensures ValidCaret(InlineContent(
      Group(SpliceChars(Chars(c.runs), start, end, Bytes(Chars(c.runs)[start..end]), marks)), c.atoms), p)
  {
    hide Chars;
    var cs := Chars(c.runs);
    var mid := SpliceChars(cs, start, end, Bytes(cs[start..end]), marks);
    assert forall i :: 0 <= i < |cs| ==> mid[i].b == cs[i].b;
  }

  predicate NoAtomTouches(atoms: seq<Placement>, start: nat, end: nat) {
    forall i :: 0 <= i < |atoms| ==> !(start <= atoms[i].offset <= end)
  }

  // An accepted text-only replacement is the mixed one at the gap before every atom.
  lemma {:induction false} TextIsInline(c: InlineContent, start: nat, end: nat, text: seq<byte>)
    requires TextReplaced(c, start, end, text).Ok?
    ensures RangeCheck(Chars(c.runs), start, end).Pass? && NoAtomTouches(c.atoms, start, end)
    ensures start <= end <= |Chars(c.runs)|
    ensures TextReplaced(c, start, end, text)
      == InlineTextReplaced(c, start, 0, end, text, Inherited(Chars(c.runs), start))
  {
    hide Chars, Boundary, MovedAtoms, SpliceChars, Group, FirstAt, CountAt, Inherited, ClearFrom;
    RangeInText(Chars(c.runs), start, end);
  }

  lemma {:induction false} TextAccepted(c: InlineContent, start: nat, end: nat, text: seq<byte>)
    requires SortedAtoms(c.atoms) && RangeCheck(Chars(c.runs), start, end).Pass? && NoAtomTouches(c.atoms, start, end)
    ensures TextReplaced(c, start, end, text).Ok?
  {
    hide Chars, Boundary, MovedAtoms, SpliceChars, Group, FirstAt, CountAt, Inherited;
    AtomBlocks(c.atoms, start);
    RangeInText(Chars(c.runs), start, end);
    assert ClearFrom(c.atoms, FirstAt(c.atoms, start), end);
  }

  // After the edit no atom touches the replacement either.
  lemma {:induction false} StillUntouched(c: InlineContent, start: nat, end: nat, text: seq<byte>, marks: MarkSet)
    requires WfContent(c) && InlineTextReplaced(c, start, 0, end, text, marks).Ok? && NoAtomTouches(c.atoms, start, end)
    ensures NoAtomTouches(InlineTextReplaced(c, start, 0, end, text, marks).value.atoms, start, start + |text|)
  {
    hide Chars, CharsOk, CanonicalRuns, Boundary, MovedAtoms, SpliceChars, Group, FirstAt, CountAt;
    AtomBlocks(c.atoms, start);
    AcceptedReplacement(c, start, 0, end, text, marks);
  }

  // Undo of an accepted text replacement is exact.
  lemma {:induction false} UndoTextReplace(store: Store, c: InlineContent, node: NodeId, start: nat, end: nat,
                                           text: seq<byte>)
    requires WfContent(c) && ValidUtf8(text) && TextReplaced(c, start, end, text).Ok?
    ensures var next := TextReplaced(c, start, end, text).value;
      && WfContent(next) && start <= |Chars(next.runs)|
      && RunInline(store, next,
                   ReplaceTextInverse(node, start, |text|, Inherited(Chars(next.runs), start),
                       SpansOf(c.runs, start, end)))
         == Ok(c)
  {
    hide Chars, CanonicalRuns, ValidUtf8, CharsOk, Boundary, SpliceChars, SpansOf, SpanOps, StripOps, StepsOf;
    hide RangeCheck, RunInline, InlineTextReplaced, Bytes, SpansText, TextReplaced, Inherited, NoAtomTouches;
    var cs := Chars(c.runs);
    TextIsInline(c, start, end, text);
    RangeInText(cs, start, end);
    var marks := Inherited(cs, start);
    InheritedValid(cs, start);
    SeamCaretStays(c, start, 0, end, text, marks);
    var next := InlineTextReplaced(c, start, 0, end, text, marks).value;
    CaretInText(next, start);
    var restored := Inherited(Chars(next.runs), start);
    InheritedValid(Chars(next.runs), start);
    var original := Bytes(cs[start..end]);
    BackReplace(c, start, 0, end, text, marks, restored);
    StillUntouched(c, start, end, text, marks);
    BackRangeOf(c, start, 0, end, text, marks);
    TextAccepted(next, start, start + |text|, original);
    TextIsInline(next, start, start + |text|, original);
    RunRestoringInverse(store, c, next, node, start, end, restored,
        ReplaceTextStep(node, start, start + |text|, original));
  }

  lemma CaretInText(c: InlineContent, offset: nat)
    requires ValidCaret(c, Caret(offset, 0))
    ensures offset <= |Chars(c.runs)|
  {
    hide Chars;
  }

  lemma BackRangeOf(c: InlineContent, start: nat, seam: nat, end: nat, text: seq<byte>, marks: MarkSet)
    requires WfContent(c) && ValidUtf8(text) && InlineTextReplaced(c, start, seam, end, text, marks).Ok?
    ensures RangeCheck(Chars(InlineTextReplaced(c, start, seam, end, text, marks).value.runs), start,
        start + |text|).Pass?
  {
    hide Chars, CanonicalRuns, ValidUtf8, CharsOk, Boundary, SpliceChars, MovedAtoms;
    RangeInText(Chars(c.runs), start, end);
    BackRange(Chars(c.runs), start, end, text, marks);
  }

  // ----- mark changes

  function KindOf(change: MarkChange): MarkKind {
    match change
    case Add(mark) => mark.Kind()
    case Remove(kind) => kind
  }

  // The operations a mark inverse runs.
  function InverseOps(start: nat, end: nat, change: MarkChange, spans: seq<InlineSpan>): seq<MarkOp> {
    match change
    case Add(mark) =>
      if start == end then [] else [MarkOp(start, end, Remove(mark.Kind()))] + SpanOps(spans, Some(mark.Kind()))
    case Remove(kind) => SpanOps(spans, Some(kind))
  }

  lemma InverseStepsAreOps(node: NodeId, start: nat, end: nat, change: MarkChange, spans: seq<InlineSpan>)
    ensures MarkChangeInverse(node, start, end, change, spans) == StepsOf(node, InverseOps(start, end, change, spans))
  {
    match change
    case Add(mark) =>
      if start != end {
        StepsOfConcat(node, [MarkOp(start, end, Remove(mark.Kind()))], SpanOps(spans, Some(mark.Kind())));
      }
    case Remove(kind) =>
  }

  lemma {:induction false} UndoneMarks(marks: MarkSet, change: MarkChange)
    requires marks.Valid()
    ensures AddAll(Strip(Change(marks, change), KindOf(change)), Selected(marks.marks, Some(KindOf(change)))) == marks
    ensures change.Remove? ==> Strip(Change(marks, change), KindOf(change)) == Change(marks, change)
  {
    hide With, Strip, AddAll, Selected;
    RevivedMarks(marks, KindOf(change));
    match change
    case Add(mark) => StripUndoesWith(marks, mark);
    case Remove(kind) => StripAbsent(Strip(marks, kind), kind);
  }

  // Running the inverse operations restores every character.
  lemma {:induction false} MarksUndone(cs: seq<Char>, start: nat, end: nat, change: MarkChange, spans: seq<InlineSpan>)
    requires MarksOk(cs) && SpansTile(cs, spans, start, end) && end <= |cs|
    ensures RunMarks(ChangeChars(cs, start, end, change), InverseOps(start, end, change, spans)) == cs
  {
    hide SpanOps, MarksAt, RunMarks, SpansTile, AddAll, Change, Strip, Selected;
    var kind := KindOf(change);
    var next := ChangeChars(cs, start, end, change);
    var ops := InverseOps(start, end, change, spans);
    SpanOpsWithin(cs, spans, start, end, Some(kind));
    forall i | 0 <= i < |cs|
      ensures RunMarks(next, ops)[i] == cs[i]
    {
      RunMarksAtPosition(next, ops, i);
      if start <= i < end {
        UndoneMarks(cs[i].marks, change);
        FirstOpAt(next[i].marks, i, start, end, change, spans);
        SpanOpsAt(cs, spans, start, end, Some(kind), Strip(next[i].marks, kind), i);
      } else {
        MarksAtOutside(next[i].marks, i, ops);
      }
    }
  }

  lemma {:induction false} FirstOpAt(marks: MarkSet, i: nat, start: nat, end: nat, change: MarkChange,
                                     spans: seq<InlineSpan>)
    requires start <= i < end
    requires change.Remove? ==> Strip(marks, KindOf(change)) == marks
    ensures MarksAt(marks, i, InverseOps(start, end, change, spans))
      == MarksAt(Strip(marks, KindOf(change)), i, SpanOps(spans, Some(KindOf(change))))
  {
    hide SpanOps, Strip;
    if change.Add? {
      var rest := SpanOps(spans, Some(KindOf(change)));
      assert ([MarkOp(start, end, Remove(change.mark.Kind()))] + rest)[1..] == rest;
    }
  }

  // Undo of an accepted mark edit is exact.
  lemma {:induction false} UndoMarkChange(store: Store, c: InlineContent, node: NodeId, start: nat, end: nat,
                                          change: MarkChange)
    requires WfContent(c) && MarksChanged(c, start, end, change).Ok?
    ensures var next := MarksChanged(c, start, end, change).value;
      && WfContent(next)
      && RunInline(store, next, MarkChangeInverse(node, start, end, change, SpansOf(c.runs, start, end))) == Ok(c)
  {
    hide Chars, CanonicalRuns, ValidUtf8, Boundary, SpansOf, SpanOps, StepsOf, RangeCheck, RunInline, ChangeChars;
    hide RunMarks, InverseOps, MarkChangeInverse;
    var cs := Chars(c.runs);
    RangeInText(cs, start, end);
    var spans := SpansOf(c.runs, start, end);
    SpansCover(c.runs, start, end);
    assert c.runs[..|c.runs|] == c.runs;
    SpansBounded(c.runs, |c.runs|, start, end);
    SpanOpsBounded(cs, spans, Some(KindOf(change)));
    ChangedIsWf(c, MarkOp(start, end, change));
    var next := MarksChanged(c, start, end, change).value;
    var ops := InverseOps(start, end, change, spans);
    InverseOpsBounded(cs, start, end, change, spans);
    InverseStepsAreOps(node, start, end, change, spans);
    RunMarkSteps(store, next, node, ops);
    MarksUndone(cs, start, end, change, spans);
    CanonicalRunsUnique(c.runs, Group(cs));
  }

  lemma {:induction false} InverseOpsBounded(cs: seq<Char>, start: nat, end: nat, change: MarkChange,
                                             spans: seq<InlineSpan>)
    requires CharsOk(cs) && RangeCheck(cs, start, end).Pass? && BoundedOps(cs, SpanOps(spans, Some(KindOf(change))))
    ensures BoundedOps(ChangeChars(cs, start, end, change), InverseOps(start, end, change, spans))
  {
    hide ChangeChars, CharsOk, Boundary, SpanOps;
    ChangeKeepsText(cs, start, end, change);
    var next := ChangeChars(cs, start, end, change);
    var ops := InverseOps(start, end, change, spans);
    var spanOps := SpanOps(spans, Some(KindOf(change)));
    assert RangeCheck(next, start, end).Pass?;
    forall k | 0 <= k < |spanOps|
      ensures RangeCheck(next, spanOps[k].start, spanOps[k].end).Pass?
    {
      assert RangeCheck(cs, spanOps[k].start, spanOps[k].end).Pass?;
    }
  }
}
