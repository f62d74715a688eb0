// What every scan keeps: text is only added, marks are only gained.
module MarkdownLaws {
  import opened Wrappers
  import opened Numbers
  import opened Text
  import opened Marks
  import opened MarkdownSyntax
  import opened MarkdownInline

  // From state `s` to the scanner's answer.
  function Complete(src: Source, s: Scan): Scanned<seq<ScannedRun>> {
    var end :- Run(src, s);
    Finish(end)
  }

  lemma CompleteStep(src: Source, s: Scan)
    requires s.pos < |src.text|
    ensures Step(src, s).Refused? ==> Complete(src, s) == Refused(Step(src, s).error)
    ensures Step(src, s).Done? ==> Complete(src, s) == Complete(src, Step(src, s).value)
  {
    hide Step, Finish;
  }

  lemma CompleteEnd(src: Source, s: Scan)
    requires s.pos >= |src.text|
    ensures Complete(src, s) == Finish(s)
  {
    hide Step, Finish;
  }

  function AllText(segments: seq<Piece>): seq<byte> {
    if segments == [] then [] else AllText(segments[..|segments| - 1]) + segments[|segments| - 1].text
  }

  // Segments only appear, marks are only added, and only the last text grows.
  predicate Grows(a: seq<Piece>, b: seq<Piece>) {
    && |a| <= |b|
    && (forall i :: 0 <= i < |a| ==> a[i].text <= b[i].text && a[i].marks <= b[i].marks)
    && (forall i :: 0 <= i < |a| - 1 ==> a[i].text == b[i].text)
  }

  lemma GrowsRefl(a: seq<Piece>)
    ensures Grows(a, a)
  {}

  lemma GrowsTrans(a: seq<Piece>, b: seq<Piece>, c: seq<Piece>)
    requires Grows(a, b) && Grows(b, c)
    ensures Grows(a, c)
  {
    forall i | 0 <= i < |a|
      ensures a[i].text <= c[i].text && a[i].marks <= c[i].marks
    {
      PrefixTrans(a[i].text, b[i].text, c[i].text);
      PrefixTrans(a[i].marks, b[i].marks, c[i].marks);
    }
  }

  lemma PrefixTrans<T>(a: seq<T>, b: seq<T>, c: seq<T>)
    requires a <= b && b <= c
    ensures a <= c
  {
    assert forall i :: 0 <= i < |a| ==> a[i] == b[i] == c[i];
  }

  lemma SealGrows(a: seq<Piece>)
    ensures Grows(a, Seal(a)) && AllText(Seal(a)) == AllText(a)
  {
    if Seal(a) != a {
      assert Seal(a)[..|a|] == a;
      assert AllText(a) + [] == AllText(a);
    }
  }

  lemma PushGrows(a: seq<Piece>, text: seq<byte>)
    ensures Grows(a, PushStr(a, text)) && AllText(PushStr(a, text)) == AllText(a) + text
  {
    if a != [] && text != [] {
      var n := |a| - 1;
      assert PushStr(a, text)[..n] == a[..n];
      assert AllText(a) + text == AllText(a[..n]) + (a[n].text + text);
    } else if text != [] {
      assert [Piece(text, [])][..0] == [];
    }
  }

  lemma AppendGrows(a: seq<Piece>, p: Piece)
    ensures Grows(a, a + [p]) && AllText(a + [p]) == AllText(a) + p.text
  {
    assert (a + [p])[..|a|] == a;
  }

  lemma {:induction false} SameTexts(a: seq<Piece>, b: seq<Piece>)
    requires |a| == |b| && forall i :: 0 <= i < |a| ==> a[i].text == b[i].text
    ensures AllText(a) == AllText(b)
  {
    if a != [] {
      SameTexts(a[..|a| - 1], b[..|b| - 1]);
    }
  }

  lemma MarkGrows(a: seq<Piece>, lo: nat, hi: nat, mark: Mark)
    ensures Grows(a, MarkRange(a, lo, hi, mark)) && AllText(MarkRange(a, lo, hi, mark)) == AllText(a)
  {
    SameTexts(a, MarkRange(a, lo, hi, mark));
  }

  lemma {:induction false} TextUpTo(segments: seq<Piece>, n: nat)
    requires n <= |segments|
    ensures AllText(segments[..n]) <= AllText(segments)
    decreases |segments|
  {
    if n == |segments| {
      assert segments[..n] == segments;
    } else {
      var front := segments[..|segments| - 1];
      TextUpTo(front, n);
      assert front[..n] == segments[..n];
      PrefixTrans(AllText(front[..n]), AllText(front), AllText(segments));
    }
  }

  // Growing segments keep what they say as a prefix.
  lemma {:induction false} GrowsText(a: seq<Piece>, b: seq<Piece>)
    requires Grows(a, b)
    ensures AllText(a) <= AllText(b)
  {
    if a != [] {
      var n := |a| - 1;
      SameTexts(a[..n], b[..n]);
      TextUpTo(b, |a|);
      assert b[..|a|][..n] == b[..n];
      PrefixAppend(AllText(a[..n]), a[n].text, b[n].text);
      PrefixTrans(AllText(a), AllText(b[..|a|]), AllText(b));
    }
  }

  lemma PrefixAppend<T>(front: seq<T>, a: seq<T>, b: seq<T>)
    requires a <= b
    ensures front + a <= front + b
  {
    assert front + b == front + a + b[|a|..];
  }

  // ----- one step

  lemma {:induction false} StepGrows(src: Source, s: Scan)
    requires s.pos < |src.text|
    ensures Step(src, s).Done? ==> Grows(s.segments, Step(src, s).value.segments)
  {
    hide Grows, Seal, PushStr, MarkRange, CharLen, ParseDestination, LastOpen, TickRun, FindRun, Trimmed, IndexOf;
    hide HasScheme,
      NoText, TokenAt, Emphasis, LinkClose, CodeSpan, AutoLink;
    var c := Charge(s, 1);
    if c.Done? {
      var b := src.text[s.pos];
      if b == BACKTICK {
        CodeGrows(src.text, c.value);
      } else if b == STAR || b == TILDE {
        EmphasisGrows(src, c.value);
      } else if b == CLOSE_BRACKET {
        LinkGrows(src, c.value);
      } else if b == OPEN_ANGLE {
        AutoLinkGrows(src.text, c.value);
      } else {
        SealGrows(s.segments);
        PushesGrow(s.segments, src.text, s.pos);
      }
    }
  }

  lemma PushesGrow(a: seq<Piece>, text: seq<byte>, pos: nat)
    requires pos < |text|
    ensures forall t: seq<byte> :: Grows(a, PushStr(a, t))
  {
    forall t: seq<byte>
      ensures Grows(a, PushStr(a, t))
    {
      PushGrows(a, t);
    }
  }

  lemma {:induction false} CodeGrows(text: seq<byte>, s: Scan)
    requires s.pos < |text| && text[s.pos] == BACKTICK
    ensures CodeSpan(text, s).Done? ==> Grows(s.segments, CodeSpan(text, s).value.segments)
  {
    hide Grows, Seal, PushStr, TickRun, FindRun, Trimmed;
    var r := CodeSpan(text, s);
    if r.Done? {
      SealGrows(s.segments);
      var closed := Seal(s.segments);
      var len := TickRun(text, s.pos);
      TickRunStarts(text, s.pos);
      PushGrows(closed, text[s.pos..s.pos + len]);
      GrowsTrans(s.segments, closed, PushStr(closed, text[s.pos..s.pos + len]));
      var found := FindRun(text, s.pos + len, len);
      if found.Some? {
        AddPiece(s.segments, Piece(Trimmed(text[s.pos + len..found.value]), [CodeMark]));
      }
    }
  }

  lemma TickRunStarts(text: seq<byte>, i: nat)
    requires i < |text| && text[i] == BACKTICK
    ensures TickRun(text, i) > 0
  {}

  lemma {:induction false} AddPiece(a: seq<Piece>, p: Piece)
    ensures Grows(a, Seal(Seal(a) + [p]))
  {
    hide Grows, Seal;
    SealGrows(a);
    AppendGrows(Seal(a), p);
    GrowsTrans(a, Seal(a), Seal(a) + [p]);
    SealGrows(Seal(a) + [p]);
    GrowsTrans(a, Seal(a) + [p], Seal(Seal(a) + [p]));
  }

  lemma {:induction false} SealThenMark(a: seq<Piece>, lo: nat, hi: nat, mark: Mark)
    ensures Grows(a, MarkRange(Seal(a), lo, hi, mark))
  {
    hide Grows, Seal, MarkRange;
    SealGrows(a);
    MarkGrows(Seal(a), lo, hi, mark);
    GrowsTrans(a, Seal(a), MarkRange(Seal(a), lo, hi, mark));
  }

  lemma {:induction false} EmphasisGrows(src: Source, s: Scan)
    requires s.pos < |src.text| && (src.text[s.pos] == STAR || src.text[s.pos] == TILDE)
    ensures Emphasis(src, s).Done? ==> Grows(s.segments, Emphasis(src, s).value.segments)
    ensures Emphasis(src, s).Done? ==> |Emphasis(src, s).value.opens| + 1 >= |s.opens|
  {
    hide Grows, Seal, PushStr, MarkRange, TokenAt, LastOpen;
    var r := Emphasis(src, s);
    if r.Done? {
      SealGrows(s.segments);
      PushGrows(s.segments, [TILDE]);
      var token := TokenAt(src.text, s.pos);
      if token.Some? {
        PushGrows(s.segments, token.value.Literal());
        var index := LastOpen(s.opens, token.value);
        if index.Some? {
          SealThenMark(s.segments, s.opens[index.value].segStart, |Seal(s.segments)| - 1, token.value.AsMark());
        }
      }
    }
  }

  lemma {:induction false} LinkGrows(src: Source, s: Scan)
    requires s.pos < |src.text|
    ensures LinkClose(src, s).Done? ==> Grows(s.segments, LinkClose(src, s).value.segments)
  {
    hide Grows, Seal, PushStr, MarkRange, ParseDestination, NoText;
    PushGrows(s.segments, [CLOSE_BRACKET]);
    var after := src.text[s.pos + 1..];
    if s.links != [] && after != [] {
      var target := ParseDestination(after[1..]);
      if target.Some? {
        SealThenMark(s.segments, s.links[|s.links| - 1], |Seal(s.segments)| - 1,
            LinkMark(target.value.0, target.value.1));
      }
    }
  }

  lemma {:induction false} AutoLinkGrows(text: seq<byte>, s: Scan)
    requires s.pos < |text|
    ensures AutoLink(text, s).Done? ==> Grows(s.segments, AutoLink(text, s).value.segments)
  {
    hide Grows, Seal, PushStr, IndexOf, HasScheme;
    PushGrows(s.segments, [OPEN_ANGLE]);
    var close := IndexOf(text, s.pos + 1, CLOSE_ANGLE);
    if close < |text| {
      var uri := text[s.pos + 1..close];
      AddPiece(s.segments, Piece(uri, [LinkMark(uri, None)]));
    }
  }

  // ----- whole scans

  lemma {:induction false} RunGrows(src: Source, s: Scan)
    ensures Run(src, s).Done? ==> Grows(s.segments, Run(src, s).value.segments)
    decreases Less(|src.text|, s.pos)
  {
    hide Step, Grows;
    if s.pos >= |src.text| {
      GrowsRefl(s.segments);
    } else {
      StepAdvances(src, s);
      StepGrows(src, s);
      if Step(src, s).Done? {
        var next := Step(src, s).value;
        RunGrows(src, next);
        if Run(src, next).Done? {
          GrowsTrans(s.segments, next.segments, Run(src, next).value.segments);
        }
      }
    }
  }

  // Literals put back only add text and touch no marks.
  predicate Spliced(a: seq<Piece>, b: seq<Piece>) {
    && |a| <= |b|
    && (forall i :: 0 <= i < |a| ==> a[i].marks == b[i].marks && |a[i].text| <= |b[i].text|)
    && |AllText(a)| <= |AllText(b)|
    && (AllText(a) != [] && !IsSpaceByte(AllText(a)[0]) ==> AllText(b) != [] && !IsSpaceByte(AllText(b)[0]))
  }

  predicate IsLiteral(text: seq<byte>) {
    text != [] && !IsSpaceByte(text[0])
  }

  lemma {:induction false} TextSplit(segments: seq<Piece>, i: nat)
    requires i < |segments|
    ensures AllText(segments) == AllText(segments[..i]) + (segments[i].text + AllText(segments[i + 1..]))
    decreases |segments|
  {
    var n := |segments| - 1;
    if i == n {
      assert segments[n + 1..] == [];
    } else {
      var front := segments[..n];
      TextSplit(front, i);
      assert front[..i] == segments[..i];
      assert segments[i + 1..][..n - i - 1] == front[i + 1..];
      assert segments[i + 1..][n - i - 1] == segments[n];
      JoinFour(AllText(segments[..i]), segments[i].text, AllText(front[i + 1..]), segments[n].text);
    }
  }

  lemma JoinFour<T>(a: seq<T>, b: seq<T>, c: seq<T>, d: seq<T>)
    ensures a + (b + c) + d == a + (b + (c + d))
  {}

  lemma {:induction false} SpliceOne(segments: seq<Piece>, p: Pending)
    requires IsLiteral(p.literal)
    ensures Spliced(segments, SpliceLiteral(segments, p))
    ensures |AllText(SpliceLiteral(segments, p))| > |AllText(segments)|
  {
    hide AllText, IsLiteral, IsSpaceByte;
    SpliceTexts(segments, p);
    if p.segStart >= |segments| && segments != [] {
      var n := |segments| - 1;
      assert SpliceLiteral(segments, p)[n].marks == segments[n].marks;
    }
  }

  lemma {:induction false} SpliceTexts(segments: seq<Piece>, p: Pending)
    requires IsLiteral(p.literal)
    ensures var was, now := AllText(segments), AllText(SpliceLiteral(segments, p));
      |was| < |now| && (was != [] && !IsSpaceByte(was[0]) ==> !IsSpaceByte(now[0]))
  {
    hide AllText, IsLiteral, IsSpaceByte;
    var i := p.segStart;
    var b := SpliceLiteral(segments, p);
    if i < |segments| {
      TextSplit(segments, i);
      TextSplit(b, i);
      assert b[..i] == segments[..i] && b[i + 1..] == segments[i + 1..];
      FrontByte(AllText(segments[..i]), p.literal, segments[i].text, AllText(segments[i + 1..]));
    } else {
      PushGrows(segments, p.literal);
      LiteralNonEmpty(p.literal);
    }
  }

  lemma LiteralNonEmpty(literal: seq<byte>)
    requires IsLiteral(literal)
    ensures literal != []
  {}

  lemma FrontByte(a: seq<byte>, literal: seq<byte>, b: seq<byte>, c: seq<byte>)
    requires IsLiteral(literal)
    ensures var was, now := a + (b + c), a + (literal + b + c);
      |was| < |now| && (was != [] && !IsSpaceByte(was[0]) ==> !IsSpaceByte(now[0]))
  {}

  lemma {:induction false} SplicedTrans(a: seq<Piece>, b: seq<Piece>, c: seq<Piece>)
    requires Spliced(a, b) && Spliced(b, c)
    ensures Spliced(a, c)
  {
    hide AllText;
  }

  lemma {:induction false} SpliceAllKeeps(s: Scan, pending: seq<Pending>)
    requires forall i :: 0 <= i < |pending| ==> IsLiteral(pending[i].literal)
    ensures var r := SpliceAll(s, pending); r.Done? ==>
      (&& Spliced(s.segments, r.value.segments)
       && (pending != [] ==> |AllText(r.value.segments)| > |AllText(s.segments)|))
    ensures SpliceAll(s, pending).Refused? ==> SpliceAll(s, pending).error == WorkLimit
    decreases |pending|
  {
    hide Spliced, SpliceLiteral, IsLiteral, AllText;
    if pending == [] {
      SplicedRefl(s.segments);
    } else {
      var p := pending[0];
      SpliceOne(s.segments, p);
      var c := Charge(s, if p.segStart < |s.segments| then |s.segments[p.segStart].text| else 0);
      if c.Done? {
        var next := c.value.(segments := SpliceLiteral(s.segments, p));
        SpliceAllKeeps(next, pending[1..]);
        if SpliceAll(next, pending[1..]).Done? {
          SplicedTrans(s.segments, next.segments, SpliceAll(next, pending[1..]).value.segments);
          SplicedLonger(next.segments, SpliceAll(next, pending[1..]).value.segments);
        }
      }
    }
  }

  lemma SplicedRefl(a: seq<Piece>)
    ensures Spliced(a, a)
  {}

  lemma SplicedLonger(a: seq<Piece>, b: seq<Piece>)
    requires Spliced(a, b)
    ensures |AllText(a)| <= |AllText(b)|
  {}

  lemma {:induction false} InsertPendingMembers(sorted: seq<Pending>, p: Pending)
    ensures forall q :: q in InsertPending(sorted, p) <==> q == p || q in sorted
  {
    if sorted != [] && sorted[0].segStart >= p.segStart {
      InsertPendingMembers(sorted[1..], p);
      assert sorted == [sorted[0]] + sorted[1..];
    }
  }

  lemma {:induction false} SortPendingMembers(pending: seq<Pending>)
    ensures forall q :: q in SortPending(pending) <==> q in pending
  {
    if pending != [] {
      var n := |pending| - 1;
      SortPendingMembers(pending[..n]);
      InsertPendingMembers(SortPending(pending[..n]), pending[n]);
      assert pending == pending[..n] + [pending[n]];
    }
  }

  lemma {:induction false} PendingAreLiterals(links: seq<nat>, opens: seq<EmphOpen>)
    ensures var sorted := SortPending(PendingLinks(links) + PendingOpens(opens));
      && (forall i :: 0 <= i < |sorted| ==> IsLiteral(sorted[i].literal))
      && (links != [] || opens != [] ==> sorted != [])
  {
    hide SortPending, IsLiteral;
    var pending := PendingLinks(links) + PendingOpens(opens);
    var sorted := SortPending(pending);
    SortPendingMembers(pending);
    forall i | 0 <= i < |sorted|
      ensures IsLiteral(sorted[i].literal)
    {
      assert sorted[i] in pending;
      LinkLiterals(links, sorted[i]);
      OpenLiterals(opens, sorted[i]);
    }
  }

  lemma LinkLiterals(links: seq<nat>, p: Pending)
    ensures p in PendingLinks(links) ==> IsLiteral(p.literal)
  {}

  lemma OpenLiterals(opens: seq<EmphOpen>, p: Pending)
    ensures p in PendingOpens(opens) ==> IsLiteral(p.literal)
  {}

  // ----- the collected runs

  function RunsText(runs: seq<ScannedRun>): seq<byte> {
    if runs == [] then [] else RunsText(runs[..|runs| - 1]) + runs[|runs| - 1].0
  }

  lemma {:induction false} CollectText(segments: seq<Piece>)
    ensures RunsText(Collect(segments)) == AllText(segments)
  {
    hide CanonicalMarks;
    if segments != [] {
      var n := |segments| - 1;
      CollectText(segments[..n]);
      var rest := Collect(segments[..n]);
      if segments[n].text != [] {
        assert Collect(segments)[..|rest|] == rest;
      } else {
        assert AllText(segments[..n]) + [] == AllText(segments[..n]);
      }
    }
  }

  lemma {:induction false} CollectHas(segments: seq<Piece>, j: nat)
    requires j < |segments| && segments[j].text != []
    ensures (segments[j].text, MarkSet(CanonicalMarks(segments[j].marks))) in Collect(segments)
  {
    hide CanonicalMarks;
    var n := |segments| - 1;
    if j < n {
      CollectHas(segments[..n], j);
    }
  }

  lemma OneRun(t: seq<byte>, marks: MarkSet)
    ensures RunsText([(t, marks)]) == t
  {
    assert [(t, marks)][..0] == [];
    assert RunsText([]) == [];
  }

  // What the answer says about a state on the way to it.
  lemma {:induction false} FinishFacts(s: Scan)
    ensures Finish(s).Done? ==>
      (&& |RunsText(Finish(s).value)| >= |AllText(s.segments)|
       && (s.links != [] || s.opens != [] ==> |RunsText(Finish(s).value)| > |AllText(s.segments)|)
       && (AllText(s.segments) != [] && !IsSpaceByte(AllText(s.segments)[0]) ==>
             RunsText(Finish(s).value) != [] && !IsSpaceByte(RunsText(Finish(s).value)[0])))
  {
    hide Collect, SpliceAll, SortPending, AllConsistent, AllText, RunsText;
    var pending := SortPending(PendingLinks(s.links) + PendingOpens(s.opens));
    PendingAreLiterals(s.links, s.opens);
    var start := s.(opens := [], links := []);
    SpliceAllKeeps(start, pending);
    var r := SpliceAll(start, pending);
    if r.Done? {
      CollectText(r.value.segments);
    }
  }

  lemma {:induction false} FinishMarks(s: Scan, j: nat)
    requires j < |s.segments| && s.segments[j].text != []
    ensures Finish(s).Done? ==>
      exists run :: run in Finish(s).value && run.1 == MarkSet(CanonicalMarks(s.segments[j].marks))
        && Consistent(s.segments[j].marks)
  {
    hide Collect, SpliceAll, SortPending, AllText, RunsText, CanonicalMarks, Consistent;
    var pending := SortPending(PendingLinks(s.links) + PendingOpens(s.opens));
    PendingAreLiterals(s.links, s.opens);
    var start := s.(opens := [], links := []);
    SpliceAllKeeps(start, pending);
    var r := SpliceAll(start, pending);
    if r.Done? && Finish(s).Done? {
      assert |s.segments[j].text| <= |r.value.segments[j].text|;
      CollectHas(r.value.segments, j);
      var run := (r.value.segments[j].text, MarkSet(CanonicalMarks(s.segments[j].marks)));
      assert run in Finish(s).value;
    }
  }

  // ----- canonical sets

  lemma {:induction false} CanonicalMembers(marks: seq<Mark>)
    ensures Canonical(CanonicalMarks(marks)) && forall m :: m in CanonicalMarks(marks) ==> m in marks
    ensures forall m :: m in marks ==> ContainsKind(CanonicalMarks(marks), m.Kind())
  {
    hide Canonical, InsertByKind;
    if marks == [] {
      EmptyIsCanonical();
    } else {
      var n := |marks| - 1;
      CanonicalMembers(marks[..n]);
      var rest := CanonicalMarks(marks[..n]);
      assert marks == marks[..n] + [marks[n]];
      if !ContainsKind(rest, marks[n].Kind()) {
        InsertKeepsCanonical(rest, marks[n]);
      }
    }
  }

  lemma {:induction false} CanonicalHasAll(marks: seq<Mark>)
    requires Consistent(marks)
    ensures forall m :: m in CanonicalMarks(marks) <==> m in marks
  {
    hide CanonicalMarks, Canonical;
    CanonicalMembers(marks);
    forall m | m in marks
      ensures m in CanonicalMarks(marks)
    {
      var other :| other in CanonicalMarks(marks) && other.Kind() == m.Kind();
      SameKindSame(marks, m, other);
    }
  }

  lemma SameKindSame(marks: seq<Mark>, a: Mark, b: Mark)
    requires Consistent(marks) && a in marks && b in marks && a.Kind() == b.Kind()
    ensures a == b
  {
    var i :| 0 <= i < |marks| && marks[i] == a;
    var j :| 0 <= j < |marks| && marks[j] == b;
    if i < j {
      assert marks[i].Kind() == marks[j].Kind();
    } else if j < i {
      assert marks[j].Kind() == marks[i].Kind();
    }
  }

  lemma {:induction false} CanonicalIsUnique(found: seq<Mark>, marks: seq<Mark>)
    requires Canonical(marks) && forall m :: m in found <==> m in marks
    ensures Consistent(found) && CanonicalMarks(found) == marks
  {
    hide CanonicalMarks, Canonical;
    forall i, j | 0 <= i < j < |found| && found[i].Kind() == found[j].Kind()
      ensures found[i] == found[j]
    {
      assert found[i] in marks && found[j] in marks;
      OneOfAKind(marks, found[i], found[j]);
    }
    CanonicalMembers(found);
    CanonicalHasAll(found);
    MarkSetExtensional(CanonicalMarks(found), marks);
  }

  // ----- when the answer is not the one run

  // Text that starts with a visible byte never becomes one that starts with a space.
  lemma {:induction false} StartsWrong(src: Source, s: Scan, t: seq<byte>, marks: MarkSet)
    requires AllText(s.segments) != [] && !IsSpaceByte(AllText(s.segments)[0]) && t != [] && IsSpaceByte(t[0])
    ensures Complete(src, s) != Done([(t, marks)])
  {
    hide Run, Finish, AllText, RunsText, IsSpaceByte;
    RunGrows(src, s);
    if Run(src, s).Done? {
      var end := Run(src, s).value;
      GrowsText(s.segments, end.segments);
      assert AllText(end.segments)[0] == AllText(s.segments)[0];
      FinishFacts(end);
      OneRun(t, marks);
    }
  }

  // Text never gets shorter.
  lemma {:induction false} TooLong(src: Source, s: Scan, t: seq<byte>, marks: MarkSet)
    requires |AllText(s.segments)| > |t|
    ensures Complete(src, s) != Done([(t, marks)])
  {
    hide Run, Finish, AllText, RunsText;
    RunGrows(src, s);
    if Run(src, s).Done? {
      var end := Run(src, s).value;
      GrowsText(s.segments, end.segments);
      FinishFacts(end);
      OneRun(t, marks);
    }
  }

  // A delimiter still open at the end comes back as text.
  lemma {:induction false} LeftOpen(src: Source, s: Scan, t: seq<byte>, marks: MarkSet)
    requires |AllText(s.segments)| >= |t| && s.pos >= |src.text| && s.opens != []
    ensures Complete(src, s) != Done([(t, marks)])
  {
    hide Run, Finish, AllText, RunsText;
    CompleteEnd(src, s);
    FinishFacts(s);
    OneRun(t, marks);
  }

  // A mark on shown text is never taken back.
  lemma {:induction false} WrongMark(src: Source, s: Scan, j: nat, m: Mark, t: seq<byte>, marks: MarkSet)
    requires j < |s.segments| && s.segments[j].text != [] && m in s.segments[j].marks && m !in marks.marks
    ensures Complete(src, s) != Done([(t, marks)])
  {
    hide Run, Finish, CanonicalMarks, Consistent;
    RunGrows(src, s);
    if Run(src, s).Done? {
      var end := Run(src, s).value;
      assert s.segments[j].marks <= end.segments[j].marks && |s.segments[j].text| <= |end.segments[j].text|;
      PrefixMember(s.segments[j].marks, end.segments[j].marks, m);
      FinishMarks(end, j);
      if Finish(end).Done? {
        var run :| run in Finish(end).value && run.1 == MarkSet(CanonicalMarks(end.segments[j].marks))
          && Consistent(end.segments[j].marks);
        CanonicalHasAll(end.segments[j].marks);
        assert m in run.1.marks;
        assert run != (t, marks);
      }
    }
  }

  lemma PrefixMember<T>(a: seq<T>, b: seq<T>, x: T)
    requires a <= b && x in a
    ensures x in b
  {
    var i :| 0 <= i < |a| && a[i] == x;
    assert b[i] == x;
  }
}
