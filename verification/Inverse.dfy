// Inverse steps of text and mark edits
// (crates/xiaomu-core/src/transaction/inverse.rs).
module Inverse {
  import opened Wrappers
  import opened Numbers
  import opened Text
  import opened Marks
  import opened Content
  import opened InlineEdit
  import opened InputMarks
  import opened Nodes
  import opened Mapping
  import opened Steps

  // One same-mark stretch of text with its absolute range.
  datatype InlineSpan = InlineSpan(start: nat, end: nat, marks: MarkSet, text: seq<byte>)

  // The part of one run, starting at `lo`, inside [start, end).
  function SpanOfRun(run: TextRun, lo: nat, start: nat, end: nat): seq<InlineSpan> {
    var from, to := Max(start, lo), Min(lo + |run.text|, end);
    if from < to then [InlineSpan(from, to, run.marks, run.text[from - lo..to - lo])] else []
  }

  function SpansOf(runs: seq<TextRun>, start: nat, end: nat): seq<InlineSpan> {
    if runs == [] then []
    else
      var n := |runs| - 1;
      SpansOf(runs[..n], start, end) + SpanOfRun(runs[n], |Chars(runs[..n])|, start, end)
  }

  function SpansText(spans: seq<InlineSpan>): seq<byte> {
    if spans == [] then [] else SpansText(spans[..|spans| - 1]) + spans[|spans| - 1].text
  }

  // The spans tile [start, end) of `cs` in order, with its marks and bytes.
  ghost predicate SpansTile(cs: seq<Char>, spans: seq<InlineSpan>, start: nat, end: nat)
    decreases |spans|
  {
    if spans == [] then start == end
    else
      var last := spans[|spans| - 1];
      && start <= last.start < last.end == end <= |cs|
      && cs[last.start..end] == Marked(last.text, last.marks)
      && SpansTile(cs, spans[..|spans| - 1], start, last.start)
  }

  lemma SpansOfPush(runs: seq<TextRun>, k: nat, start: nat, end: nat)
    requires k < |runs|
    ensures SpansOf(runs[..k + 1], start, end)
      == SpansOf(runs[..k], start, end) + SpanOfRun(runs[k], |Chars(runs[..k])|, start, end)
  {
    hide SpanOfRun, Chars;
    assert runs[..k + 1][..k] == runs[..k];
  }

  method SpanWithinRun(run: TextRun, lo: nat, start: nat, end: nat) returns (r: seq<InlineSpan>)
    requires lo < end ==> IsBoundary(run.text, Min(lo + |run.text|, end) - lo)
    requires start < lo + |run.text| ==> IsBoundary(run.text, Max(start, lo) - lo)
    ensures r == SpanOfRun(run, lo, start, end)
  {
    hide IsBoundary;
    var spanStart, spanEnd := Max(start, lo), Min(lo + |run.text|, end);
    if spanStart < spanEnd {
      return [InlineSpan(spanStart, spanEnd, run.marks, Slice(run.text, spanStart - lo, spanEnd - lo))];
    }
    return [];
  }

  method SpansWithin(runs: seq<TextRun>, start: nat, end: nat) returns (r: Result<seq<InlineSpan>>)
    requires CanonicalRuns(runs) && CharsOk(Chars(runs))
    ensures r.Err? ==> RangeCheck(Chars(runs), start, end) == Fail(r.error)
    ensures r.Ok? ==> RangeCheck(Chars(runs), start, end).Pass? && r.value == SpansOf(runs, start, end)
  {
    hide Chars, CharsOk, CanonicalRuns, Boundary, RangeCheck, SpansOf, SpanOfRun, IsBoundary;
    var check := CheckRange(runs, start, end);
    if check.Fail? {
      return Err(check.error);
    }
    NoRuns();
    NoSpans(start, end);
    assert runs[..0] == [];
    var spans: seq<InlineSpan> := [];
    var cursor := 0;
    for i := 0 to |runs|
      invariant cursor == |Chars(runs[..i])|
      invariant spans == SpansOf(runs[..i], start, end)
    {
      RunIsSlice(runs, i);
      SpansOfPush(runs, i, start, end);
      CutsWithinRun(runs, i, start, end);
      var span := SpanWithinRun(runs[i], cursor, start, end);
      spans := spans + span;
      cursor := cursor + |runs[i].text|;
    }
    assert runs[..|runs|] == runs;
    return Ok(spans);
  }

  lemma NoSpans(start: nat, end: nat)
    ensures SpansOf([], start, end) == []
  {}

  lemma {:induction false} SpansCover(runs: seq<TextRun>, start: nat, end: nat)
    requires start <= end <= |Chars(runs)|
    ensures SpansTile(Chars(runs), SpansOf(runs, start, end), start, end)
  {
    var n := |runs|;
    SpansCoverPrefix(runs, n, start, end);
    assert runs[..n] == runs;
  }

  lemma {:induction false} SpansCoverPrefix(runs: seq<TextRun>, k: nat, start: nat, end: nat)
    requires k <= |runs| && start <= end <= |Chars(runs)|
    ensures |Chars(runs[..k])| <= |Chars(runs)|
    ensures SpansTile(Chars(runs), SpansOf(runs[..k], start, end), start, Max(start, Min(end, |Chars(runs[..k])|)))
  {
    hide Chars, Marked, SpansTile, SpansOf, SpanOfRun;
    if k == 0 {
      NoRuns();
      NoSpans(start, end);
      assert runs[..0] == [];
      CoversNothing(Chars(runs), start);
    } else {
      SpansCoverPrefix(runs, k - 1, start, end);
      RunIsSlice(runs, k - 1);
      SpansOfPush(runs, k - 1, start, end);
      CoversPush(Chars(runs), SpansOf(runs[..k - 1], start, end), runs[k - 1], |Chars(runs[..k - 1])|, start, end);
    }
  }

  lemma CoversNothing(cs: seq<Char>, start: nat)
    ensures SpansTile(cs, [], start, start)
  {}

  lemma CoversOneMore(cs: seq<Char>, spans: seq<InlineSpan>, span: InlineSpan, start: nat, at: nat)
    requires SpansTile(cs, spans, start, at) && start <= at == span.start < span.end <= |cs|
    requires cs[span.start..span.end] == Marked(span.text, span.marks)
    ensures SpansTile(cs, spans + [span], start, span.end)
  {
    hide Marked;
    assert (spans + [span])[..|spans|] == spans;
  }

  lemma {:induction false} CoversPush(cs: seq<Char>, spans: seq<InlineSpan>, run: TextRun, lo: nat, start: nat,
                                      end: nat)
    requires start <= end <= |cs| && lo + |run.text| <= |cs|
    requires cs[lo..lo + |run.text|] == Marked(run.text, run.marks)
    requires SpansTile(cs, spans, start, Max(start, Min(end, lo)))
    ensures SpansTile(cs, spans + SpanOfRun(run, lo, start, end), start, Max(start, Min(end, lo + |run.text|)))
  {
    hide Marked, SpansTile;
    var hi := lo + |run.text|;
    var from, to := Max(start, lo), Min(hi, end);
    var added := SpanOfRun(run, lo, start, end);
    if from < to {
      var span := InlineSpan(from, to, run.marks, run.text[from - lo..to - lo]);
      assert added == [span];
      MarkedSlice(run.text, run.marks, from - lo, to - lo);
      SliceOfSlice(cs, lo, hi, from - lo, to - lo);
      CoversOneMore(cs, spans, span, start, from);
    } else {
      assert added == [] && spans + added == spans;
    }
  }

  lemma {:induction false} SpansTextIsBytes(cs: seq<Char>, spans: seq<InlineSpan>, start: nat, end: nat)
    requires SpansTile(cs, spans, start, end) && end <= |cs|
    ensures start <= end && SpansText(spans) == Bytes(cs[start..end])
    decreases |spans|
  {
    hide Marked, Bytes;
    if spans == [] {
      assert Bytes(cs[start..end]) == [];
    } else {
      var last := spans[|spans| - 1];
      SpansTextIsBytes(cs, spans[..|spans| - 1], start, last.start);
      BytesOfMarked(last.text, last.marks);
      BytesOfConcat(cs[start..last.start], cs[last.start..end]);
      assert cs[start..end] == cs[start..last.start] + cs[last.start..end];
    }
  }

  lemma BytesOfMarked(text: seq<byte>, marks: MarkSet)
    ensures Bytes(Marked(text, marks)) == text
  {}

  // ----- mark steps as operations on ranges

  datatype MarkOp = MarkOp(start: nat, end: nat, change: MarkChange)

  function StepOf(node: NodeId, op: MarkOp): TransactionStep {
    match op.change
    case Add(mark) => AddMarkStep(node, op.start, op.end, mark)
    case Remove(kind) => RemoveMarkStep(node, op.start, op.end, kind)
  }

  function StepsOf(node: NodeId, ops: seq<MarkOp>): (r: seq<TransactionStep>)
    ensures |r| == |ops|
  {
    seq(|ops|, i requires 0 <= i < |ops| => StepOf(node, ops[i]))
  }

  // Removes every given mark's kind from the range.
  function StripOps(marks: seq<Mark>, start: nat, end: nat): (r: seq<MarkOp>)
    ensures |r| == |marks|
  {
    seq(|marks|, i requires 0 <= i < |marks| => MarkOp(start, end, Remove(marks[i].Kind())))
  }

  // Adds every given mark to the range.
  function AddOps(marks: seq<Mark>, start: nat, end: nat): (r: seq<MarkOp>)
    ensures |r| == |marks|
  {
    seq(|marks|, i requires 0 <= i < |marks| => MarkOp(start, end, Add(marks[i])))
  }

  // The marks a span gets back: all of them, or the one of a kind.
  function Selected(marks: seq<Mark>, kind: Option<MarkKind>): seq<Mark> {
    if kind.None? then marks
    else if marks == [] then []
    else if marks[0].Kind() == kind.value then [marks[0]]
    else Selected(marks[1..], kind)
  }

  function SpanOps(spans: seq<InlineSpan>, kind: Option<MarkKind>): seq<MarkOp> {
    if spans == [] then []
    else
      var last := spans[|spans| - 1];
      SpanOps(spans[..|spans| - 1], kind) + AddOps(Selected(last.marks.marks, kind), last.start, last.end)
  }

  // ----- generated inverses

  // `replace_text_inverse`; `inherited` is what the restoring step inherits.
  function ReplaceTextInverse(node: NodeId, start: nat, len: nat, inherited: MarkSet, spans: seq<InlineSpan>)
      : seq<TransactionStep> {
    if spans == [] then [ReplaceTextStep(node, start, start + len, [])]
    else
      var text := SpansText(spans);
      [ReplaceTextStep(node, start, start + len, text)]
        + StepsOf(node, StripOps(inherited.marks, start, start + |text|))
        + StepsOf(node, SpanOps(spans, None))
  }

  // `replace_inline_text_inverse`.
  function ReplaceInlineTextInverse(at: InlinePoint, len: nat, restored: MarkSet, spans: seq<InlineSpan>)
      : seq<TransactionStep> {
    if spans == [] then [ReplaceInlineTextStep(at, at.offset + len, [])]
    else
      var text := SpansText(spans);
      [ReplaceInlineTextStep(at, at.offset + len, text)]
        + StepsOf(at.node, StripOps(restored.marks, at.offset, at.offset + |text|))
        + StepsOf(at.node, SpanOps(spans, None))
  }

  // `add_mark_inverse` and `remove_mark_inverse`.
  function MarkChangeInverse(node: NodeId, start: nat, end: nat, change: MarkChange, spans: seq<InlineSpan>)
      : seq<TransactionStep> {
    match change
    case Add(mark) =>
      if start == end then []
      else [RemoveMarkStep(node, start, end, mark.Kind())] + StepsOf(node, SpanOps(spans, Some(mark.Kind())))
    case Remove(kind) => StepsOf(node, SpanOps(spans, Some(kind)))
  }

  lemma StepsOfConcat(node: NodeId, a: seq<MarkOp>, b: seq<MarkOp>)
    ensures StepsOf(node, a + b) == StepsOf(node, a) + StepsOf(node, b)
  {}

  // The loop shared by both replace inverses: strip, then re-add span by span.
  method PushMarkSteps(steps: seq<TransactionStep>, node: NodeId, start: nat, end: nat, strip: MarkSet,
                       spans: seq<InlineSpan>) returns (r: seq<TransactionStep>)
    ensures r == steps + StepsOf(node, StripOps(strip.marks, start, end)) + StepsOf(node, SpanOps(spans, None))
  {
    r := steps;
    var kinds := strip.marks;
    for i := 0 to |kinds|
      invariant r == steps + StepsOf(node, StripOps(kinds, start, end))[..i]
    {
      r := r + [RemoveMarkStep(node, start, end, kinds[i].Kind())];
    }
    ghost var stripped := steps + StepsOf(node, StripOps(kinds, start, end));
    assert r == stripped;
    for i := 0 to |spans|
      invariant r == stripped + StepsOf(node, SpanOps(spans[..i], None))
    {
      var span := spans[i];
      ghost var before := r;
      for j := 0 to |span.marks.marks|
        invariant r == before + StepsOf(node, AddOps(span.marks.marks, span.start, span.end))[..j]
      {
        r := r + [AddMarkStep(node, span.start, span.end, span.marks.marks[j])];
      }
      assert spans[..i + 1][..i] == spans[..i];
      StepsOfConcat(node, SpanOps(spans[..i], None), AddOps(span.marks.marks, span.start, span.end));
    }
    assert spans[..|spans|] == spans;
  }

  method OldText(spans: seq<InlineSpan>) returns (text: seq<byte>)
    ensures text == SpansText(spans)
  {
    text := [];
    for i := 0 to |spans|
      invariant text == SpansText(spans[..i])
    {
      assert spans[..i + 1][..i] == spans[..i];
      text := text + spans[i].text;
    }
    assert spans[..|spans|] == spans;
  }

  method BuildReplaceTextInverse(node: NodeId, start: nat, len: nat, post: InlineContent, spans: seq<InlineSpan>)
      returns (steps: seq<TransactionStep>)
    requires CanonicalRuns(post.runs) && start <= |Chars(post.runs)|
    ensures steps == ReplaceTextInverse(node, start, len, Inherited(Chars(post.runs), start), spans)
  {
    hide Chars, CanonicalRuns, Inherited, StepsOf, StripOps, SpanOps, SpansText;
    if spans == [] {
      return [ReplaceTextStep(node, start, start + len, [])];
    }
    var text := OldText(spans);
    var inherited := LeftRunMarksAt(post.runs, start);
    steps := PushMarkSteps([ReplaceTextStep(node, start, start + len, text)], node, start, start + |text|, inherited,
        spans);
  }

  method BuildReplaceInlineTextInverse(at: InlinePoint, len: nat, restored: MarkSet, spans: seq<InlineSpan>)
      returns (steps: seq<TransactionStep>)
    ensures steps == ReplaceInlineTextInverse(at, len, restored, spans)
  {
    hide StepsOf, StripOps, SpanOps, SpansText;
    if spans == [] {
      return [ReplaceInlineTextStep(at, at.offset + len, [])];
    }
    var text := OldText(spans);
    steps := PushMarkSteps([ReplaceInlineTextStep(at, at.offset + len, text)], at.node, at.offset, at.offset + |text|,
                           restored, spans);
  }
}
