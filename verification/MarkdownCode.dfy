// Code spans, and the round trip of any printed run.
module MarkdownCode {
  import opened Wrappers
  import opened Text
  import opened Marks
  import opened MarkdownSyntax
  import opened MarkdownInline
  import opened MarkdownLaws
  import opened MarkdownRuns
  import opened MarkdownRoundTrip
  import opened MarkdownEmphasis
  import opened MarkdownRunLaws

  // ----- backtick runs

  lemma {:induction false} TickRunIs(text: seq<byte>, i: nat, n: nat)
    requires i + n <= |text| && AllTicks(text[i..i + n]) && (i + n == |text| || text[i + n] != BACKTICK)
    ensures TickRun(text, i) == n
    decreases n
  {
    if n > 0 {
      assert text[i] == text[i..i + n][0];
      assert text[i + 1..i + n] == text[i..i + n][1..];
      TickRunIs(text, i + 1, n - 1);
    }
  }

  lemma {:induction false} TickRunTicks(text: seq<byte>, i: nat)
    requires i <= |text|
    ensures AllTicks(text[i..i + TickRun(text, i)])
    decreases |text| - i
  {
    if i < |text| && text[i] == BACKTICK {
      TickRunTicks(text, i + 1);
      var n := TickRun(text, i);
      assert text[i..i + n] == [BACKTICK] + text[i + 1..i + n];
    }
  }

  // No run of `len` or more backticks lies in [lo, hi).
  ghost predicate ShortRuns(text: seq<byte>, lo: nat, hi: nat, len: nat)
    requires lo <= hi <= |text|
  {
    forall a, b :: lo <= a <= b <= hi && AllTicks(text[a..b]) ==> b - a < len
  }

  // The search passes shorter runs and stops at the closing fence.
  lemma {:induction false} FindRunSkips(text: seq<byte>, i: nat, end: nat, len: nat)
    requires i <= end < |text| && len > 0 && ShortRuns(text, i, end, len) && TickRun(text, end) == len
    requires i < end ==> text[end - 1] != BACKTICK
    ensures FindRun(text, i, len) == Some(end)
    decreases end - i
  {
    if i == end {
      assert text[i] == BACKTICK;
    } else if text[i] == BACKTICK {
      var n := TickRun(text, i);
      TickRunTicks(text, i);
      RunStopsBefore(text, i, end);
      assert n < len;
      FindRunSkips(text, i + n, end, len);
    } else {
      FindRunSkips(text, i + 1, end, len);
    }
  }

  lemma RunStopsBefore(text: seq<byte>, i: nat, end: nat)
    requires i < end <= |text| && text[end - 1] != BACKTICK
    ensures i + TickRun(text, i) < end
  {
    TickRunTicks(text, i);
    var n := TickRun(text, i);
    assert forall k :: i <= k < i + n ==> text[k] == text[i..i + n][k - i];
  }

  // ----- the printed code

  function Body(t: seq<byte>): seq<byte>
    requires t != []
  {
    CodePadding(t) + t + CodePadding(t)
  }

  lemma {:induction false} BodyRuns(t: seq<byte>, a: nat, b: nat)
    requires t != [] && a <= b <= |Body(t)| && AllTicks(Body(t)[a..b])
    ensures b - a <= LongestRun(t)
  {
    hide LongestRun;
    var body, pad := Body(t), |CodePadding(t)|;
    if a < b {
      assert body[a] == body[a..b][0] && body[b - 1] == body[a..b][b - 1 - a];
      assert pad <= a && b <= pad + |t|;
      assert t[a - pad..b - pad] == body[a..b];
      LongestIsLongest(t, a - pad, b - pad);
    }
  }

  lemma BodyEnds(t: seq<byte>)
    requires t != []
    ensures Body(t) != [] && Body(t)[0] != BACKTICK && Body(t)[|Body(t)| - 1] != BACKTICK
  {}

  // The space the padding added is the one stripped.
  lemma BodyTrims(t: seq<byte>)
    requires t != []
    ensures Trimmed(Body(t)) == t
  {
    var body := Body(t);
    if CodePadding(t) != [] {
      assert body[1..|body| - 1] == t;
      assert !AllSpaces(t) by {
        assert t[0] in t && t[|t| - 1] in t;
      }
      var b :| b in t && b != SPACE;
      assert b in body;
    } else {
      assert body == t;
    }
  }

  lemma {:induction false} FencesLonger(t: seq<byte>)
    requires t != []
    ensures |CodeFence(t)| > LongestRun(t) && |CodeFence(t)| >= 2 && AllTicks(CodeFence(t))
  {}

  // Both fences and the code between them, as positions.
  lemma {:induction false} FencePositions(text: seq<byte>, pos: nat, t: seq<byte>, rest: seq<byte>)
    requires t != [] && pos <= |text| && text[pos..] == CodeFence(t) + (Body(t) + (CodeFence(t) + rest))
    requires rest == [] || rest[0] != BACKTICK
    ensures var len, end := |CodeFence(t)|, pos + |CodeFence(t)| + |Body(t)|;
      && end + len <= |text| && text[pos..pos + len] == CodeFence(t) && text[pos + len..end] == Body(t)
      && text[end..end + len] == CodeFence(t) && text[end + len..] == rest
      && (end + len == |text| || text[end + len] != BACKTICK)
  {
    hide CodeFence, Body;
    var fence, body := CodeFence(t), Body(t);
    var tail := fence + rest;
    Cut(fence, body + tail);
    Cut(body, tail);
    Cut(fence, rest);
    DropTwice(text, pos, |fence|);
    DropTwice(text, pos + |fence|, |body|);
    DropTwice(text, pos + |fence| + |body|, |fence|);
    if rest != [] {
      assert text[pos + |fence| + |body| + |fence|..][0] == rest[0];
    }
  }

  lemma {:induction false} BodyShortRuns(text: seq<byte>, lo: nat, t: seq<byte>, len: nat)
    requires t != [] && lo + |Body(t)| <= |text| && text[lo..lo + |Body(t)|] == Body(t) && len > LongestRun(t)
    ensures ShortRuns(text, lo, lo + |Body(t)|, len)
  {
    hide Body, LongestRun;
    var hi := lo + |Body(t)|;
    forall a, b | lo <= a <= b <= hi && AllTicks(text[a..b])
      ensures b - a < len
    {
      assert text[lo..hi][a - lo..b - lo] == text[a..b];
      BodyRuns(t, a - lo, b - lo);
    }
  }

  // The scanner finds both fences and nothing between.
  lemma {:induction false} FencesFound(text: seq<byte>, pos: nat, t: seq<byte>, rest: seq<byte>)
    requires t != [] && pos <= |text| && text[pos..] == CodeFence(t) + (Body(t) + (CodeFence(t) + rest))
    requires rest == [] || rest[0] != BACKTICK
    ensures var len, end := |CodeFence(t)|, pos + |CodeFence(t)| + |Body(t)|;
      && pos < |text| && text[pos] == BACKTICK && TickRun(text, pos) == len
        && FindRun(text, pos + len, len) == Some(end)
      && text[pos + len..end] == Body(t) && text[end + len..] == rest && end + len <= |text|
  {
    hide CodeFence, Body, LongestRun, TickRun, FindRun, ShortRuns;
    var len, body := |CodeFence(t)|, Body(t);
    var end := pos + len + |body|;
    FencesLonger(t);
    FencePositions(text, pos, t, rest);
    BodyEnds(t);
    assert text[pos] == text[pos..pos + len][0];
    assert text[pos + len] == text[pos + len..end][0];
    assert text[end - 1] == text[pos + len..end][|body| - 1];
    TickRunIs(text, pos, len);
    TickRunIs(text, end, len);
    BodyShortRuns(text, pos + len, t, len);
    FindRunSkips(text, pos + len, end, len);
  }

  lemma StepIsCode(src: Source, s: Scan)
    requires s.pos < |src.text| && src.text[s.pos] == BACKTICK
    ensures Step(src, s) == if s.work + 1 > MAX_WORK then Refused(WorkLimit)
      else CodeSpan(src.text, s.(work := s.work + 1))
  {
    hide CodeSpan;
  }

  lemma {:induction false} CodeSpanIs(text: seq<byte>, s: Scan, len: nat, end: nat, t: seq<byte>)
    requires s.pos < |text| && text[s.pos] == BACKTICK && TickRun(text, s.pos) == len && len > 0
    requires s.pos + len <= end <= |text| && FindRun(text, s.pos + len, len) == Some(end)
      && Trimmed(text[s.pos + len..end]) == t
    requires Blank(s.segments) && t != []
    ensures Becomes(CodeSpan(text, s), s, |text| - s.pos, end + len,
        [EMPTY_PIECE, Piece(t, [CodeMark]), EMPTY_PIECE], s.opens, s.links)
  {
    hide TickRun, FindRun, Trimmed, Seal;
    SealBlank(s.segments);
    SealCode(t);
  }

  lemma SealCode(t: seq<byte>)
    ensures Seal([EMPTY_PIECE] + [Piece(t, [CodeMark])])
      == if t == [] then [EMPTY_PIECE, Piece(t, [CodeMark])] else [EMPTY_PIECE, Piece(t, [CodeMark]), EMPTY_PIECE]
  {}

  lemma {:induction false} CodeStep(src: Source, s: Scan, t: seq<byte>, rest: seq<byte>)
    requires t != [] && At(src, s, PrintCode(t) + rest) && (rest == [] || rest[0] != BACKTICK) && Blank(s.segments)
    ensures s.pos < |src.text|
    ensures Becomes(Step(src, s), s, 1 + |src.text|, s.pos + |PrintCode(t)|,
        [EMPTY_PIECE, Piece(t, [CodeMark]), EMPTY_PIECE], s.opens, s.links)
    ensures s.pos + |PrintCode(t)| <= |src.text| && src.text[s.pos + |PrintCode(t)|..] == rest
  {
    hide CodeFence, CodePadding, LongestRun, Step, CodeSpan, TickRun, FindRun, Trimmed, Body, PrintCode;
    PrintedCode(t, rest);
    FencesFound(src.text, s.pos, t, rest);
    BodyTrims(t);
    StepIsCode(src, s);
    FencesLonger(t);
    CodeSpanIs(src.text, s.(work := s.work + 1), |CodeFence(t)|, s.pos + |CodeFence(t)| + |Body(t)|, t);
  }

  lemma PrintedCode(t: seq<byte>, rest: seq<byte>)
    requires t != []
    ensures PrintCode(t) + rest == CodeFence(t) + (Body(t) + (CodeFence(t) + rest))
    ensures |PrintCode(t)| == 2 * |CodeFence(t)| + |Body(t)|
  {
    hide CodeFence, CodePadding;
  }

  lemma {:induction false} CodeCovers(marks: MarkSet)
    requires marks.Valid() && CodeMark in marks.marks && OnlyCodeAndLink(marks.marks)
    ensures MadeUpOf([CodeMark], LinkOf(marks.marks), marks)
  {
    hide Canonical;
    var link := LinkOf(marks.marks);
    forall m
      ensures m in marks.marks <==> m in [CodeMark] || link == Some(m)
    {
      if m in marks.marks && m.LinkMark? {
        OneOfAKind(marks.marks, m, link.value);
      }
    }
  }

  lemma {:induction false} CodeEnds(src: Source, s: Scan, t: seq<byte>, link: Option<Mark>, marks: MarkSet)
    requires MadeUpOf([CodeMark], link, marks) && At(src, s, LinkTail(link)) && t != []
    requires s.segments == [EMPTY_PIECE, Piece(t, [CodeMark]), EMPTY_PIECE] && s.opens == []
    requires s.links == (if link.Some? then [0] else [])
    ensures Decides(Complete(src, s), s.work, TailCost(link, src.markSize), [(t, marks)], LinkOk(link))
  {
    hide Complete, LinkTail, Finish, Canonical, Readable, AllText, Reaches, PrintTarget;
    if link.None? {
      EndOfText(src, s);
      CompleteEnd(src, s);
      assert s.segments == [EMPTY_PIECE] + [Piece(t, [CodeMark])] + [EMPTY_PIECE];
      OnePiece(s, t, [CodeMark], marks, [EMPTY_PIECE], [EMPTY_PIECE]);
    } else if Readable(link.value.href) {
      var end := LinkReadable(src, s, link.value, 1);
      CompleteEnd(src, end);
      var linked := Piece([], [link.value]);
      CodeMarked(t, link.value);
      assert end.segments == [linked] + [Piece(t, [CodeMark, link.value])] + [EMPTY_PIECE];
      OnePiece(end, t, [CodeMark, link.value], marks, [linked], [EMPTY_PIECE]);
      LinkDecides(src, s, end, link.value, t, marks);
    } else {
      CodeText(t);
      LinkUnreadable(src, s, link.value, 1, t, marks);
    }
  }

  lemma CodeMarked(t: seq<byte>, m: Mark)
    ensures var all := [EMPTY_PIECE, Piece(t, [CodeMark]), EMPTY_PIECE];
      Seal(all) == all && MarkRange(all, 0, 2, m) == [Piece([], [m]), Piece(t, [CodeMark, m]), EMPTY_PIECE]
  {
    assert [] + [m] == [m] && [CodeMark] + [m] == [CodeMark, m];
  }

  lemma CodeText(t: seq<byte>)
    ensures AllText([EMPTY_PIECE, Piece(t, [CodeMark]), EMPTY_PIECE]) == t
  {
    var a, b := [EMPTY_PIECE], Piece(t, [CodeMark]);
    BlankText(a);
    AppendGrows(a, b);
    AppendGrows(a + [b], EMPTY_PIECE);
    assert a + [b] + [EMPTY_PIECE] == [EMPTY_PIECE, b, EMPTY_PIECE];
    assert [] + t == t && t + [] == t;
  }

  lemma {:induction false} CodeRun(t: seq<byte>, marks: MarkSet, markSize: nat, work: nat)
    requires t != [] && marks.Valid() && CodeMark in marks.marks && OnlyCodeAndLink(marks.marks)
    ensures var printed := WrapLink(PrintCode(t), LinkOf(marks.marks));
      Decides(ScanInline(Source(printed, markSize), work), work, RunCost(|printed|, markSize), [(t, marks)],
              LinkOk(LinkOf(marks.marks)))
  {
    hide ScanInline, PrintCode, WrapLink, Complete, Step, Canonical, MadeUpOf, LinkOk, Decides, Reaches, Becomes;
    hide TailCost, At;
    var link := LinkOf(marks.marks);
    var src := Source(WrapLink(PrintCode(t), link), markSize);
    var start := Scan(0, work, [], [], []);
    StartIsComplete(src, start);
    var s := StartScan(src, start, PrintCode(t), link);
    CodeCovers(marks);
    TailNoTick(link);
    CodeStep(src, s, t, LinkTail(link));
    var end := StepReaches(src, s, 1 + |src.text|, s.pos + |PrintCode(t)|,
        [EMPTY_PIECE, Piece(t, [CodeMark]), EMPTY_PIECE],
                           s.opens, s.links);
    AtNext(src, s, end, PrintCode(t), LinkTail(link));
    CodeEnds(src, end, t, link, marks);
    DecidesOn(src, s, end, 1 + |src.text|, TailCost(link, markSize), [(t, marks)], LinkOk(link));
    DecidesOn(src, start, s, 1, 1 + |src.text| + TailCost(link, markSize), [(t, marks)], LinkOk(link));
    TailCheap(link, markSize);
    TailIsPart(PrintCode(t), link);
    DecidesMore(ScanInline(src, work), work, 2 + |src.text| + TailCost(link, markSize), RunCost(|src.text|, markSize),
                [(t, marks)], LinkOk(link));
  }

  lemma TailIsPart(inner: seq<byte>, link: Option<Mark>)
    requires link.Some? ==> link.value.LinkMark?
    ensures |LinkTail(link)| <= |WrapLink(inner, link)|
  {
    hide LinkTail;
  }

  lemma TailNoTick(link: Option<Mark>)
    requires link.Some? ==> link.value.LinkMark?
    ensures LinkTail(link) == [] || LinkTail(link)[0] != BACKTICK
  {}

  // Every run the writer can print scans back to the same text and marks
  // exactly when it survives. The budget stops no surviving run while
  // `RunCost` of its printed length is left.
  lemma {:induction false} RunRoundTrip(t: seq<byte>, marks: MarkSet, markSize: nat, work: nat)
    requires ValidUtf8(t) && t != [] && marks.Valid() && Render(t, marks.marks).Some?
    ensures var printed := Render(t, marks.marks).value;
      var r := ScanInline(Source(printed, markSize), work);
      && (r == Refused(WorkLimit) || (r == Done([(t, marks)]) <==> Survives(t, marks.marks)))
      && (work + RunCost(|printed|, markSize) <= MAX_WORK ==> (r == Done([(t, marks)]) <==> Survives(t, marks.marks)))
  {
    hide ScanInline, PrintCode, PrintEmphasis, WrapLink, Canonical, EndsVisibly, Readable, Survives, LinkOk, RunCost;
    SurvivesParts(t, marks.marks);
    if CodeMark in marks.marks {
      CodeRun(t, marks, markSize, work);
    } else {
      EmphasisRun(t, marks, markSize, work);
    }
  }
}
