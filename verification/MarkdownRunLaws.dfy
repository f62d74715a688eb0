// One printed run, with its code span, delimiters and link, scans back to
// itself exactly when its text and target allow it.
module MarkdownRunLaws {
  import opened Wrappers
  import opened Numbers
  import opened Text
  import opened Marks
  import opened MarkdownSyntax
  import opened MarkdownInline
  import opened MarkdownLaws
  import opened MarkdownRuns
  import opened MarkdownRoundTrip
  import opened MarkdownEmphasis

  // ----- answers within the budget

  // `answer` comes out exactly when `ok`; the budget stops it only when less
  // than `cost` is left.
  predicate Decides(r: Scanned<seq<ScannedRun>>, work: nat, cost: nat, answer: seq<ScannedRun>, ok: bool) {
    if ok then r == Done(answer) || (r == Refused(WorkLimit) && work + cost > MAX_WORK) else r != Done(answer)
  }

  lemma DecidesOn(src: Source, s: Scan, mid: Scan, first: nat, second: nat, answer: seq<ScannedRun>, ok: bool)
    requires Reaches(src, s, mid, first) && Decides(Complete(src, mid), mid.work, second, answer, ok)
    ensures Decides(Complete(src, s), s.work, first + second, answer, ok)
  {
    hide Complete;
  }

  lemma DecidesMore(r: Scanned<seq<ScannedRun>>, work: nat, cost: nat, more: nat, answer: seq<ScannedRun>, ok: bool)
    requires Decides(r, work, cost, answer, ok) && cost <= more
    ensures Decides(r, work, more, answer, ok)
  {}

  // ----- the link around a run

  // The state inside the bracket, or at the start when there is no link.
  lemma {:induction false} StartScan(src: Source, start: Scan, body: seq<byte>, link: Option<Mark>) returns (s: Scan)
    requires link.Some? ==> link.value.LinkMark?
    requires src.text == WrapLink(body, link) && start == Scan(0, start.work, [], [], [])
    ensures Reaches(src, start, s, 1) && At(src, s, body + LinkTail(link)) && s.opens == []
    ensures Blank(s.segments) && s.links == (if link.Some? then [0] else [])
  {
    hide Step, Complete, Run, Finish, LinkTail, Reaches, Becomes;
    var tail := body + LinkTail(link);
    assert src.text[0..] == src.text;
    if link.None? {
      assert [] + tail == tail;
      s := start;
      ReachesSelf(src, s);
      ReachesMore(src, s, s, 0, 1);
    } else {
      Ahead(src, start, [OPEN_BRACKET], tail);
      BracketStep(src, start);
      s := StepReaches(src, start, 1, start.pos + 1, [EMPTY_PIECE], start.opens, start.links + [0]);
    }
  }

  lemma StartIsComplete(src: Source, s: Scan)
    requires s == Scan(0, s.work, [], [], [])
    ensures ScanInline(src, s.work) == Complete(src, s)
  {
    hide Run, Finish;
  }

  lemma BracketStep(src: Source, s: Scan)
    requires s.pos < |src.text| && src.text[s.pos] == OPEN_BRACKET && s.segments == []
    ensures Becomes(Step(src, s), s, 1, s.pos + 1, [EMPTY_PIECE], s.opens, s.links + [0])
  {}

  // What the closing bracket reads.
  lemma {:induction false} TailAhead(src: Source, s: Scan, link: Mark)
    requires link.LinkMark? && At(src, s, LinkTail(Some(link)))
    ensures s.pos + 1 < |src.text| && src.text[s.pos] == CLOSE_BRACKET
    ensures var after := src.text[s.pos + 1..];
      after != [] && after[0] == OPEN_PAREN && after[1..] == PrintTarget(link.href, link.title)
    ensures s.pos + 2 + |PrintTarget(link.href, link.title)| == |src.text|
  {
    hide PrintTarget;
    var target := PrintTarget(link.href, link.title);
    Ahead(src, s, [CLOSE_BRACKET], [OPEN_PAREN] + target);
    Cut([OPEN_PAREN], target);
  }

  lemma {:induction false} SealedText(segments: seq<Piece>, j: nat)
    requires j < |segments| && segments[j].text != []
    ensures var all := Seal(segments);
      j < |all| - 1 && all[j] == segments[j] && !NoText(all, 0, |all| - 1)
  {
    var all := Seal(segments);
    assert all[j] == segments[j];
  }

  function TitleLength(title: Option<seq<byte>>): nat {
    if title.Some? then |title.value| else 0
  }

  // The work of closing a link around `n` segments.
  function LinkCost(target: nat, n: nat, url: seq<byte>, title: Option<seq<byte>>, markSize: nat, marked: nat): nat {
    1 + target + n + marked * (|url| + TitleLength(title) + markSize)
  }

  lemma {:induction false} LinkStep(src: Source, s: Scan, link: Mark, j: nat)
    requires link.LinkMark? && At(src, s, LinkTail(Some(link))) && s.links == [0]
    requires j < |s.segments| && s.segments[j].text != []
    ensures s.pos < |src.text|
    ensures var r, all := Step(src, s), Seal(s.segments);
      var printed := PrintTarget(link.href, link.title); var target := ParseDestination(printed);
      if target.None? then
        Becomes(r, s, 1 + |printed| + |s.segments|, s.pos + 1, PushStr(s.segments, [CLOSE_BRACKET]), s.opens, [])
      else
        Becomes(r, s, LinkCost(|printed|, |s.segments|, target.value.0, target.value.1, src.markSize,
            Less(|all| - 1, 0)),
                s.pos + 2 + target.value.2,
                MarkRange(all, 0, |all| - 1, LinkMark(target.value.0, target.value.1)), s.opens, [])
  {
    hide Seal, PushStr, MarkRange, ParseDestination, PrintTarget, At, NoText, Less, LinkMarks, LinkCost;
    TailAhead(src, s, link);
    SealedText(s.segments, j);
    assert Step(src, s) == if s.work + 1 > MAX_WORK then Refused(WorkLimit)
      else LinkClose(src, s.(work := s.work + 1)) by {
      hide LinkClose;
    }
    var printed := PrintTarget(link.href, link.title);
    var target := ParseDestination(printed);
    if target.Some? {
      var all := Seal(s.segments);
      var (url, title, consumed) := target.value;
      var spent := s.(work := s.work + 1 + (|printed| + |s.segments|));
      LinkMarksIs(src, spent, url, title, consumed);
      LinkCostIs(|printed|, |s.segments|, url, title, src.markSize, Less(|all| - 1, 0));
    }
  }

  lemma LinkCostIs(target: nat, n: nat, url: seq<byte>, title: Option<seq<byte>>, markSize: nat, marked: nat)
    ensures LinkCost(target, n, url, title, markSize, marked)
      == target + n + LinkCost(0, 0, url, title, markSize, marked)
    ensures LinkCost(0, 0, url, title, markSize, marked) >= 1
  {}

  lemma LinkMarksIs(src: Source, s: Scan, url: seq<byte>, title: Option<seq<byte>>, consumed: nat)
    requires s.links == [0] && !NoText(Seal(s.segments), 0, |Seal(s.segments)| - 1)
    ensures var all := Seal(s.segments);
      Becomes(LinkMarks(src, s, url, title, consumed), s,
              LinkCost(0, 0, url, title, src.markSize, Less(|all| - 1, 0)) - 1, s.pos + 2 + consumed,
              MarkRange(all, 0, |all| - 1, LinkMark(url, title)), s.opens, [])
  {
    hide Seal, MarkRange, NoText, Less;
  }

  // A target that does not read back spoils the run.
  lemma {:induction false} LinkUnreadable(src: Source, s: Scan, link: Mark, j: nat, t: seq<byte>, marks: MarkSet)
    requires link.LinkMark? && At(src, s, LinkTail(Some(link))) && s.links == [0] && !Readable(link.href)
    requires j < |s.segments| && s.segments[j].text != [] && |AllText(s.segments)| >= |t|
    requires marks.Valid() && link in marks.marks
    ensures Complete(src, s) != Done([(t, marks)])
  {
    hide Seal, PushStr, MarkRange, ParseDestination, PrintTarget, At, Step, Complete, Readable, AllText, Canonical;
    LinkStep(src, s, link, j);
    CompleteStep(src, s);
    TargetRoundTrip(link.href, link.title, []);
    assert PrintTarget(link.href, link.title) + [] == PrintTarget(link.href, link.title);
    if Step(src, s).Done? {
      var after := Step(src, s).value;
      var target := ParseDestination(PrintTarget(link.href, link.title));
      if target.None? {
        PushGrows(s.segments, [CLOSE_BRACKET]);
        TooLong(src, after, t, marks);
      } else {
        var wrong := LinkMark(target.value.0, target.value.1);
        OtherLink(marks.marks, link, wrong);
        SealedText(s.segments, j);
        var all := Seal(s.segments);
        assert MarkRange(all, 0, |all| - 1, wrong)[j] == Piece(all[j].text, all[j].marks + [wrong]);
        WrongMark(src, after, j, wrong, t, marks);
      }
    }
  }

  lemma OtherLink(marks: seq<Mark>, link: Mark, other: Mark)
    requires Canonical(marks) && link in marks && link.LinkMark? && other.LinkMark? && link != other
    ensures other !in marks
  {
    hide Canonical;
    if other in marks {
      OneOfAKind(marks, link, other);
    }
  }

  // A readable target closes the link and the text.
  lemma {:induction false} LinkReadable(src: Source, s: Scan, link: Mark, j: nat) returns (end: Scan)
    requires link.LinkMark? && At(src, s, LinkTail(Some(link))) && s.links == [0] && Readable(link.href)
    requires j < |s.segments| && s.segments[j].text != []
    ensures var all := Seal(s.segments);
      && Reaches(src, s, end,
          LinkCost(|PrintTarget(link.href, link.title)|, |s.segments|, link.href, link.title, src.markSize,
                                       Less(|all| - 1, 0)))
      && end.pos == |src.text| && end.opens == s.opens && end.links == []
      && end.segments == MarkRange(all, 0, |all| - 1, link)
  {
    hide Seal, MarkRange, ParseDestination, PrintTarget, At, Step, Complete, Readable, PushStr, Reaches, Becomes;
    hide LinkCost, Less;
    TailAhead(src, s, link);
    LinkStep(src, s, link, j);
    TargetRoundTrip(link.href, link.title, []);
    assert PrintTarget(link.href, link.title) + [] == PrintTarget(link.href, link.title);
    var all := Seal(s.segments);
    var cost := LinkCost(|PrintTarget(link.href, link.title)|, |s.segments|, link.href, link.title, src.markSize,
        Less(|all| - 1, 0));
    end := StepReaches(src, s, cost, |src.text|, MarkRange(all, 0, |all| - 1, link), s.opens, []);
  }

  predicate LinkOk(link: Option<Mark>)
    requires link.Some? ==> link.value.LinkMark?
  {
    link.None? || Readable(link.value.href)
  }

  // The marks found, with the link if any, are the run's.
  ghost predicate MadeUpOf(found: seq<Mark>, link: Option<Mark>, marks: MarkSet) {
    && marks.Valid() && (link.Some? ==> link.value.LinkMark? && link.value in marks.marks)
    && forall m :: m in marks.marks <==> m in found || link == Some(m)
  }

  // The work after the text and its delimiters.
  function TailCost(link: Option<Mark>, markSize: nat): nat
    requires link.Some? ==> link.value.LinkMark?
  {
    if link.None? then 0
    else
      var mark := link.value;
      LinkCost(|PrintTarget(mark.href, mark.title)|, 3, mark.href, mark.title, markSize, 2)
  }

  lemma {:induction false} HeldEnds(src: Source, s: Scan, t: seq<byte>, found: seq<Mark>, link: Option<Mark>,
                                    marks: MarkSet)
    requires MadeUpOf(found, link, marks) && At(src, s, LinkTail(link)) && Held(s.segments, t, found) && t != []
    requires s.opens == [] && s.links == (if link.Some? then [0] else [])
    ensures Decides(Complete(src, s), s.work, TailCost(link, src.markSize), [(t, marks)], LinkOk(link))
  {
    hide Complete, Step, LinkTail, Finish, MarkRange, Canonical, Readable, PrintTarget, Reaches;
    if link.None? {
      EndOfText(src, s);
      CompleteEnd(src, s);
      HeldOnePiece(s, t, found, marks);
    } else {
      HeldText(s.segments, t, found);
      if Readable(link.value.href) {
        var end := LinkReadable(src, s, link.value, 0);
        HeldMarked(s.segments, t, found, link.value);
        HeldSealed(t, found + [link.value]);
        CompleteEnd(src, end);
        HeldOnePiece(end, t, found + [link.value], marks);
        LinkDecides(src, s, end, link.value, t, marks);
      } else {
        LinkUnreadable(src, s, link.value, 0, t, marks);
      }
    }
  }

  lemma {:induction false} LinkDecides(src: Source, s: Scan, end: Scan, link: Mark, t: seq<byte>, marks: MarkSet)
    requires link.LinkMark? && |s.segments| <= 3 && |Seal(s.segments)| <= 3 && Complete(src, end) == Done([(t, marks)])
    requires Reaches(src, s, end, LinkCost(|PrintTarget(link.href, link.title)|, |s.segments|, link.href, link.title,
                                           src.markSize, Less(|Seal(s.segments)| - 1, 0)))
    ensures Decides(Complete(src, s), s.work, TailCost(Some(link), src.markSize), [(t, marks)], true)
  {
    hide Complete, PrintTarget, Seal, Reaches, Decides;
    var marked, size := Less(|Seal(s.segments)| - 1, 0), |link.href| + TitleLength(link.title) + src.markSize;
    var cost := LinkCost(|PrintTarget(link.href, link.title)|, |s.segments|, link.href, link.title, src.markSize,
        marked);
    TimesMore(marked, 2, size);
    ReachesMore(src, s, end, cost, TailCost(Some(link), src.markSize));
    DecidesAtOnce(Complete(src, end), end.work, [(t, marks)]);
    DecidesOn(src, s, end, TailCost(Some(link), src.markSize), 0, [(t, marks)], true);
  }

  lemma TimesMore(a: nat, b: nat, n: nat)
    requires a <= b
    ensures a * n <= b * n
  {}

  lemma DecidesAtOnce(r: Scanned<seq<ScannedRun>>, work: nat, answer: seq<ScannedRun>)
    requires r == Done(answer)
    ensures Decides(r, work, 0, answer, true)
  {}

  lemma EndOfText(src: Source, s: Scan)
    requires At(src, s, LinkTail(None))
    ensures s.pos == |src.text|
  {}

  lemma HeldOnePiece(s: Scan, t: seq<byte>, found: seq<Mark>, marks: MarkSet)
    requires Held(s.segments, t, found) && t != [] && s.opens == [] && s.links == []
    requires marks.Valid() && forall m :: m in found <==> m in marks.marks
    ensures Finish(s) == Done([(t, marks)])
  {
    hide Finish, Canonical;
    if s.segments == [Piece(t, found)] {
      assert s.segments == [] + [Piece(t, found)] + [];
      OnePiece(s, t, found, marks, [], []);
    } else {
      assert s.segments == [] + [Piece(t, found)] + [EMPTY_PIECE];
      OnePiece(s, t, found, marks, [], [EMPTY_PIECE]);
    }
  }

  lemma HeldText(segments: seq<Piece>, t: seq<byte>, marks: seq<Mark>)
    requires Held(segments, t, marks)
    ensures AllText(segments) == t && segments != [] && segments[0].text == t
  {
    assert [Piece(t, marks)][..0] == [];
    assert AllText([Piece(t, marks)]) == t;
    assert [Piece(t, marks), EMPTY_PIECE][..1] == [Piece(t, marks)];
    assert t + [] == t;
  }

  lemma {:induction false} StuckEnds(src: Source, s: Scan, t: seq<byte>, link: Option<Mark>, marks: MarkSet)
    requires link.Some? ==> link.value.LinkMark? && link.value in marks.marks
    requires marks.Valid() && At(src, s, LinkTail(link)) && Stuck(s, t, 0)
    requires s.links == (if link.Some? then [0] else [])
    ensures Complete(src, s) != Done([(t, marks)])
  {
    hide Complete, LinkTail, Finish, MarkRange, Canonical, Readable, AllText, Seal;
    if |AllText(s.segments)| > |t| {
      TooLong(src, s, t, marks);
    } else if link.None? {
      EndOfText(src, s);
      LeftOpen(src, s, t, marks);
    } else if Readable(link.value.href) {
      var end := LinkReadable(src, s, link.value, 0);
      SealGrows(s.segments);
      MarkGrows(Seal(s.segments), 0, |Seal(s.segments)| - 1, link.value);
      LeftOpen(src, end, t, marks);
    } else {
      LinkUnreadable(src, s, link.value, 0, t, marks);
    }
  }

  // ----- the delimiters around a text

  lemma {:induction false} EscapeEnds(t: seq<byte>)
    requires t != []
    ensures var e := Escape(t, InText);
      && e != [] && e[|e| - 1] == t[|t| - 1] && e[0] != STAR && (IsSpaceByte(e[0]) <==> IsSpaceByte(t[0]))
  {
    var n := |t| - 1;
    assert t == t[..n] + [t[n]];
    EscapeConcat(t[..n], [t[n]], InText);
    EscapeOne(t[n], InText);
    assert Escape(t, InText) == EscapeByte(t[0], InText) + Escape(t[1..], InText);
  }

  lemma OpensForOpen(tokens: seq<EmphToken>, closers: seq<EmphToken>)
    requires multiset(tokens) == multiset(closers)
    ensures Open(OpensFor(tokens), closers)
  {
    assert TokensOf(OpensFor(tokens)) == tokens;
  }

  // The opening delimiters and the text.
  lemma {:induction false} OpenAndRead(src: Source, s: Scan, t: seq<byte>, openers: seq<EmphToken>, rest: seq<byte>)
    returns (read: Scan)
    requires ValidUtf8(t) && t != [] && At(src, s, Literals(openers) + (Escape(t, InText) + rest))
    requires Opening(openers) && openers != [] && s.opens == [] && Blank(s.segments) && !IsSpaceByte(t[0])
    ensures Reaches(src, s, read, OpenCost(|openers|, 0) + |t|) && At(src, read, rest) && read.links == s.links
    ensures read.segments == [Piece(t, [])] && read.opens == OpensFor(openers)
    ensures AfterText(src, read) <==> !IsSpaceByte(t[|t| - 1])
  {
    hide Complete, Literals, At, Opening, IsSpaceByte, ValidUtf8, Escape, AfterText, PushStr, Reaches, OpenCost;
    EscapeEnds(t);
    var tail := Escape(t, InText) + rest;
    var work := OpenAll(src, s, openers, tail);
    var begun := Opened(s, openers, work);
    AtNext(src, s, begun, Literals(openers), tail);
    read := TextScans(src, begun, t, rest);
    FirstText(t);
    LastRead(src, begun, read, t, rest);
    assert [] + OpensFor(openers) == OpensFor(openers);
    ReachesOn(src, s, begun, read, OpenCost(|openers|, 0), |t|);
  }

  lemma FirstText(t: seq<byte>)
    requires t != []
    ensures PushStr([EMPTY_PIECE], t) == [Piece(t, [])] && PushStr([], t) == [Piece(t, [])]
      && Held([Piece(t, [])], t, [])
  {
    assert [] + t == t;
  }

  // The byte before a closing delimiter is the text's last.
  lemma {:induction false} LastRead(src: Source, s: Scan, read: Scan, t: seq<byte>, rest: seq<byte>)
    requires t != [] && At(src, s, Escape(t, InText) + rest) && read.pos == s.pos + |Escape(t, InText)|
    ensures AfterText(src, read) <==> !IsSpaceByte(t[|t| - 1])
  {
    hide Escape, IsSpaceByte;
    var e := Escape(t, InText);
    EscapeEnds(t);
    Ahead(src, s, e, rest);
    assert src.text[s.pos + (|e| - 1)] == e[|e| - 1];
  }

  // An emphasised run keeps to itself only without a space at either end.
  predicate EndsVisibly(t: seq<byte>)
    requires t != []
  {
    !IsSpaceByte(t[0]) && !IsSpaceByte(t[|t| - 1])
  }

  predicate HasEmphasis(marks: seq<Mark>) {
    BoldMark in marks || ItalicMark in marks || StrikeMark in marks
  }

  // What a caller can check of a run before printing it.
  predicate Survives(t: seq<byte>, marks: seq<Mark>)
    requires t != []
  {
    && (HasEmphasis(marks) ==> EndsVisibly(t))
    && forall m :: m in marks && m.LinkMark? ==> Readable(m.href)
  }

  lemma {:induction false} SurvivesParts(t: seq<byte>, marks: seq<Mark>)
    requires t != [] && Canonical(marks)
    ensures Survives(t, marks) <==> (HasEmphasis(marks) ==> EndsVisibly(t)) && LinkOk(LinkOf(marks))
  {
    hide EndsVisibly, Readable, Canonical;
    var link := LinkOf(marks);
    if link.Some? {
      forall m | m in marks && m.LinkMark?
        ensures m == link.value
      {
        OneOfAKind(marks, m, link.value);
      }
    }
  }

  lemma {:induction false} EmphasisCovers(marks: MarkSet)
    requires marks.Valid() && CodeMark !in marks.marks && UnderlineMark !in marks.marks && !HasTextStyle(marks.marks)
    ensures MadeUpOf(AsMarks(Closers(marks.marks)), LinkOf(marks.marks), marks)
  {
    hide Canonical;
    var found, link := AsMarks(Closers(marks.marks)), LinkOf(marks.marks);
    CloserMembers(BoldMark in marks.marks, StrikeMark in marks.marks, ItalicMark in marks.marks);
    forall m
      ensures m in marks.marks <==> m in found || link == Some(m)
    {
      MarkOfToken(Closers(marks.marks), m);
      if m in marks.marks && m.LinkMark? {
        OneOfAKind(marks.marks, m, link.value);
      }
      assert m in marks.marks ==> !m.TextStyleMark?;
    }
  }

  lemma MarkOfToken(tokens: seq<EmphToken>, m: Mark)
    ensures m in AsMarks(tokens) <==>
      (m == BoldMark && BoldToken in tokens) || (m == ItalicMark && ItalicToken in tokens)
        || (m == StrikeMark && StrikeToken in tokens)
  {
    if m in AsMarks(tokens) {
      var i :| 0 <= i < |tokens| && AsMarks(tokens)[i] == m;
      assert tokens[i] in tokens;
    }
    forall token | token in tokens
      ensures token.AsMark() in AsMarks(tokens)
    {
      var i :| 0 <= i < |tokens| && tokens[i] == token;
      assert AsMarks(tokens)[i] == token.AsMark();
    }
  }

  // Enough work for any run of this printed length.
  function RunCost(printed: nat, markSize: nat): nat {
    4 * printed + 5 * markSize + 32
  }

  lemma {:induction false} EmphasisRun(t: seq<byte>, marks: MarkSet, markSize: nat, work: nat)
    requires ValidUtf8(t) && t != [] && marks.Valid()
    requires CodeMark !in marks.marks && UnderlineMark !in marks.marks && !HasTextStyle(marks.marks)
    ensures var printed := WrapLink(PrintEmphasis(t, marks.marks), LinkOf(marks.marks));
      Decides(ScanInline(Source(printed, markSize), work), work, RunCost(|printed|, markSize), [(t, marks)],
              (HasEmphasis(marks.marks) ==> EndsVisibly(t)) && LinkOk(LinkOf(marks.marks)))
  {
    hide ScanInline, PrintEmphasis, WrapLink, LinkTail, Literals, Opening, Tokenizes, Escape, ValidUtf8, Complete, At,
      OpenersOf, ClosersOf, Canonical, IsSpaceByte, MadeUpOf, Stuck, Held, LinkOk, Decides, TailCost, Reaches;
    var link := LinkOf(marks.marks);
    var bold, strike, italic := BoldMark in marks.marks, StrikeMark in marks.marks, ItalicMark in marks.marks;
    var openers, closers := Openers(marks.marks), Closers(marks.marks);
    var src := Source(WrapLink(PrintEmphasis(t, marks.marks), link), markSize);
    var tail := LinkTail(link);
    EmphasisTokens(t, marks.marks);
    var start := Scan(0, work, [], [], []);
    StartIsComplete(src, start);
    var s := StartScan(src, start, PrintEmphasis(t, marks.marks), link);
    EmphasisCovers(marks);
    TailNoStar(link);
    OpenersOpen(bold, strike, italic);
    SameTokens(bold, strike, italic);
    ClosersTokenize(bold, strike, italic, tail);
    AnyOpeners(bold, strike, italic);
    Regroup(Literals(openers), Escape(t, InText), Literals(closers), tail);
    var ok := (HasEmphasis(marks.marks) ==> EndsVisibly(t)) && LinkOk(link);
    if openers == [] {
      PlainBody(src, s, t, marks, link);
    } else {
      EmphasisBody(src, s, t, marks, link, openers, closers);
    }
    DecidesOn(src, start, s, 1, BodyCost(t, |openers|, link, markSize), [(t, marks)], ok);
    EmphasisCost(t, marks.marks, markSize);
    DecidesMore(ScanInline(src, work), work, 1 + BodyCost(t, |openers|, link, markSize), RunCost(|src.text|, markSize),
                [(t, marks)], ok);
  }

  // The work of a text between `n` delimiters on each side and its link.
  function BodyCost(t: seq<byte>, n: nat, link: Option<Mark>, markSize: nat): nat
    requires link.Some? ==> link.value.LinkMark?
  {
    OpenCost(n, 0) + |t| + CloseCost(n, markSize) + TailCost(link, markSize)
  }

  lemma {:induction false} EscapeLonger(text: seq<byte>, escapes: Escapes)
    ensures |Escape(text, escapes)| >= |text|
  {
    if text != [] {
      EscapeLonger(text[1..], escapes);
    }
  }

  lemma {:induction false} TargetLonger(href: seq<byte>, title: Option<seq<byte>>)
    ensures |PrintTarget(href, title)| >= |href| + TitleLength(title) + 1
  {
    hide Escape;
    EscapeLonger(href, InDestination);
    if title.Some? {
      EscapeLonger(title.value, InTitle);
    }
  }

  // A link costs at most four times its printed length, and two marks.
  lemma {:induction false} TailCheap(link: Option<Mark>, markSize: nat)
    requires link.Some? ==> link.value.LinkMark?
    ensures TailCost(link, markSize) <= 3 * |LinkTail(link)| + 2 * markSize
  {
    hide PrintTarget;
    if link.Some? {
      TargetLonger(link.value.href, link.value.title);
    }
  }

  lemma DelimiterCosts(n: nat, markSize: nat)
    requires n <= 3
    ensures OpenCost(n, 0) <= 9 && CloseCost(n, markSize) <= 15 + 3 * markSize
  {
    if n == 3 {
      assert OpenCost(3, 0) == 2 + OpenCost(2, 1) == 5 + OpenCost(1, 2) == 9 + OpenCost(0, 3);
      assert CloseCost(3, markSize) == 6 + markSize + CloseCost(2, markSize);
    }
    assert OpenCost(2, 0) == 2 + OpenCost(1, 1) == 5 + OpenCost(0, 2);
    assert CloseCost(2, markSize) == 5 + markSize + CloseCost(1, markSize);
    assert CloseCost(1, markSize) == 4 + markSize + CloseCost(0, markSize);
  }

  lemma {:induction false} EmphasisCost(t: seq<byte>, marks: seq<Mark>, markSize: nat)
    ensures 1 + BodyCost(t, |Openers(marks)|, LinkOf(marks), markSize)
      <= RunCost(|WrapLink(PrintEmphasis(t, marks), LinkOf(marks))|, markSize)
  {
    hide Escape, Literals, LinkTail, TailCost, OpenCost, CloseCost, PrintEmphasis;
    EscapeLonger(t, InText);
    EmphasisTokens(t, marks);
    TailCheap(LinkOf(marks), markSize);
    DelimiterCosts(|Openers(marks)|, markSize);
  }

  lemma Regroup<T>(a: seq<T>, b: seq<T>, c: seq<T>, d: seq<T>)
    ensures (a + (b + c)) + d == a + (b + (c + d))
  {}

  lemma TailNoStar(link: Option<Mark>)
    requires link.Some? ==> link.value.LinkMark?
    ensures StartsNoStar(LinkTail(link))
  {}

  lemma AnyOpeners(bold: bool, strike: bool, italic: bool)
    ensures OpenersOf(bold, strike, italic) == [] <==> !bold && !strike && !italic
    ensures ClosersOf(bold, strike, italic) == [] <==> !bold && !strike && !italic
  {}

  lemma {:induction false} PlainBody(src: Source, s: Scan, t: seq<byte>, marks: MarkSet, link: Option<Mark>)
    requires ValidUtf8(t) && t != [] && MadeUpOf(AsMarks([]), link, marks) && s.opens == [] && Blank(s.segments)
    requires At(src, s, Literals([]) + (Escape(t, InText) + (Literals([]) + LinkTail(link))))
    requires s.links == (if link.Some? then [0] else [])
    ensures Decides(Complete(src, s), s.work, BodyCost(t, 0, link, src.markSize), [(t, marks)], LinkOk(link))
  {
    hide Complete, LinkTail, Escape, ValidUtf8, At, Canonical, Readable, Decides, TailCost, Reaches, LinkOk;
    assert Literals([]) + (Escape(t, InText) + (Literals([]) + LinkTail(link))) == Escape(t, InText) + LinkTail(link);
    var read := TextScans(src, s, t, LinkTail(link));
    FirstText(t);
    assert AsMarks([]) == [];
    HeldEnds(src, read, t, [], link, marks);
    DecidesOn(src, s, read, |t|, TailCost(link, src.markSize), [(t, marks)], LinkOk(link));
  }

  lemma {:induction false} EmphasisBody(src: Source, s: Scan, t: seq<byte>, marks: MarkSet, link: Option<Mark>,
                                        openers: seq<EmphToken>, closers: seq<EmphToken>)
    requires ValidUtf8(t) && t != [] && MadeUpOf(AsMarks(closers), link, marks) && s.opens == [] && Blank(s.segments)
    requires At(src, s, Literals(openers) + (Escape(t, InText) + (Literals(closers) + LinkTail(link))))
    requires Opening(openers) && Tokenizes(closers, LinkTail(link)) && multiset(openers) == multiset(closers)
    requires openers != [] && s.links == (if link.Some? then [0] else [])
    ensures Decides(Complete(src, s), s.work, BodyCost(t, |openers|, link, src.markSize), [(t, marks)],
                    EndsVisibly(t) && LinkOk(link))
  {
    hide Complete, LinkTail, Literals, Opening, Tokenizes, Escape, ValidUtf8, At, IsSpaceByte, Canonical, LinkOk;
    hide TailCost;
    hide OpenCost, CloseCost, Decides, Reaches;
    if IsSpaceByte(t[0]) {
      EscapeEnds(t);
      OpenBlocked(src, s, openers, Escape(t, InText) + (Literals(closers) + LinkTail(link)), t, marks);
      NeverDecides(Complete(src, s), s.work, BodyCost(t, |openers|, link, src.markSize), [(t, marks)]);
    } else {
      var read := OpenAndRead(src, s, t, openers, Literals(closers) + LinkTail(link));
      assert |openers| == |multiset(openers)| == |multiset(closers)| == |closers|;
      CloseAndEnd(src, read, t, marks, link, openers, closers);
      DecidesOn(src, s, read, OpenCost(|openers|, 0) + |t|,
          CloseCost(|openers|, src.markSize) + TailCost(link, src.markSize),
                [(t, marks)], EndsVisibly(t) && LinkOk(link));
    }
  }

  lemma NeverDecides(r: Scanned<seq<ScannedRun>>, work: nat, cost: nat, answer: seq<ScannedRun>)
    requires r != Done(answer)
    ensures Decides(r, work, cost, answer, false)
  {}

  // From the end of the text on.
  lemma {:induction false} CloseAndEnd(src: Source, s: Scan, t: seq<byte>, marks: MarkSet, link: Option<Mark>,
                                       openers: seq<EmphToken>, closers: seq<EmphToken>)
    requires t != [] && MadeUpOf(AsMarks(closers), link, marks) && At(src, s, Literals(closers) + LinkTail(link))
    requires Tokenizes(closers, LinkTail(link)) && multiset(openers) == multiset(closers) && |openers| == |closers|
    requires openers != [] && s.links == (if link.Some? then [0] else []) && !IsSpaceByte(t[0])
    requires s.segments == [Piece(t, [])] && s.opens == OpensFor(openers)
    requires AfterText(src, s) <==> !IsSpaceByte(t[|t| - 1])
    ensures Decides(Complete(src, s), s.work, CloseCost(|openers|, src.markSize) + TailCost(link, src.markSize),
        [(t, marks)],
                    EndsVisibly(t) && LinkOk(link))
  {
    hide Complete, LinkTail, Literals, Tokenizes, At, IsSpaceByte, Stuck, Held, LinkOk, TailCost, CloseCost, Decides;
    hide AfterText;
    hide Reaches, Open, AsMarks, Canonical;
    FirstText(t);
    if IsSpaceByte(t[|t| - 1]) {
      var end := FirstStuck(src, s, closers, t, LinkTail(link));
      if Complete(src, s) != Refused(WorkLimit) {
        StuckEnds(src, end, t, link, marks);
      }
      NeverDecides(Complete(src, s), s.work, CloseCost(|openers|, src.markSize) + TailCost(link, src.markSize),
          [(t, marks)]);
    } else {
      OpensForOpen(openers, closers);
      var end := CloseAll(src, s, closers, t, [], LinkTail(link));
      assert [] + AsMarks(closers) == AsMarks(closers);
      HeldEnds(src, end, t, AsMarks(closers), link, marks);
      DecidesOn(src, s, end, CloseCost(|closers|, src.markSize), TailCost(link, src.markSize), [(t, marks)],
                EndsVisibly(t) && LinkOk(link));
    }
  }
}
