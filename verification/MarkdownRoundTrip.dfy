// Printed text, code and emphasised runs scan back to themselves.
module MarkdownRoundTrip {
  import opened Wrappers
  import opened Text
  import opened Marks
  import opened MarkdownSyntax
  import opened MarkdownInline
  import opened MarkdownLaws

  // What is left to scan.
  predicate At(src: Source, s: Scan, rest: seq<byte>) {
    s.pos <= |src.text| && src.text[s.pos..] == rest
  }

  lemma Ahead(src: Source, s: Scan, a: seq<byte>, b: seq<byte>)
    requires At(src, s, a + b)
    ensures s.pos + |a| <= |src.text| && src.text[s.pos + |a|..] == b && src.text[s.pos..s.pos + |a|] == a
    ensures forall i :: 0 <= i < |a| ==> src.text[s.pos + i] == a[i]
    ensures b == [] <==> s.pos + |a| == |src.text|
    ensures b != [] ==> src.text[s.pos + |a|] == b[0]
  {
    var left := src.text[s.pos..];
    forall i | 0 <= i < |a|
      ensures src.text[s.pos + i] == a[i]
    {
      assert left[i] == a[i];
    }
    DropTwice(src.text, s.pos, |a|);
    Cut(a, b);
    if b != [] {
      assert left[|a|] == b[0];
    }
  }

  // A step to this state for at most `cost` work, unless the budget runs out.
  predicate Becomes(r: Scanned<Scan>, s: Scan, cost: nat, pos: nat, segments: seq<Piece>, opens: seq<EmphOpen>,
                    links: seq<nat>) {
    match r
    case Refused(error) => error == WorkLimit && s.work + cost > MAX_WORK
    case Done(v) => v == Scan(pos, v.work, segments, opens, links) && v.work <= s.work + cost
  }

  // Scanning on from `s` is scanning on from `end`, for at most `cost` work,
  // unless the budget runs out.
  predicate Reaches(src: Source, s: Scan, end: Scan, cost: nat) {
    || (Complete(src, s) == Refused(WorkLimit) && s.work + cost > MAX_WORK)
    || (Complete(src, s) == Complete(src, end) && end.work <= s.work + cost)
  }

  lemma ReachesSelf(src: Source, s: Scan)
    ensures Reaches(src, s, s, 0)
  {
    hide Complete;
  }

  lemma ReachesOn(src: Source, s: Scan, mid: Scan, end: Scan, first: nat, second: nat)
    requires Reaches(src, s, mid, first) && Reaches(src, mid, end, second)
    ensures Reaches(src, s, end, first + second)
  {
    hide Complete;
  }

  // The state a step leads to; any state when the budget stops it.
  lemma {:induction false} StepReaches(src: Source, s: Scan, cost: nat, pos: nat, segments: seq<Piece>,
                                       opens: seq<EmphOpen>, links: seq<nat>) returns (next: Scan)
    requires s.pos < |src.text| && Becomes(Step(src, s), s, cost, pos, segments, opens, links)
    ensures next == Scan(pos, next.work, segments, opens, links) && Reaches(src, s, next, cost)
  {
    hide Step, Complete;
    CompleteStep(src, s);
    next := Scan(pos, if Step(src, s).Done? then Step(src, s).value.work else 0, segments, opens, links);
  }

  // The answer from here, unless the budget runs out.
  predicate Answers(r: Scanned<seq<ScannedRun>>, answer: Scanned<seq<ScannedRun>>) {
    r == Refused(WorkLimit) || r == answer
  }

  // ----- plain text

  lemma {:induction false} EscapePlain(text: seq<byte>, n: nat, escapes: Escapes)
    requires n <= |text| && forall i :: 0 <= i < n ==> !escapes.Has(text[i])
    ensures Escape(text, escapes) == text[..n] + Escape(text[n..], escapes)
  {
    if n > 0 {
      EscapePlain(text[1..], n - 1, escapes);
      assert text[1..][n - 1..] == text[n..];
      assert text[..n] == [text[0]] + text[1..][..n - 1];
    } else {
      assert text[n..] == text;
    }
  }

  lemma ScalarIsPlain(t: seq<byte>)
    requires ValidUtf8(t) && t != [] && !InText.Has(t[0])
    ensures forall i :: 0 <= i < ScalarLen(t) ==> !InText.Has(t[i])
  {
    forall i | 0 < i < ScalarLen(t)
      ensures !InText.Has(t[i])
    {
      ScalarShape(t, i);
    }
  }

  // The printed form of the first character of `t`.
  lemma {:induction false} EscapeFirst(t: seq<byte>)
    requires ValidUtf8(t) && t != []
    ensures ScalarLen(t) > 0 && ValidUtf8(t[ScalarLen(t)..])
    ensures InText.Has(t[0]) ==> ScalarLen(t) == 1 && t[..1] == [t[0]] && IsPunctuation(t[0])
    ensures InText.Has(t[0]) ==> Escape(t, InText) == [BACKSLASH, t[0]] + Escape(t[1..], InText)
    ensures !InText.Has(t[0]) ==> Escape(t, InText) == t[..ScalarLen(t)] + Escape(t[ScalarLen(t)..], InText)
  {
    if InText.Has(t[0]) {
      EscapesArePunctuation(InText, t[0]);
      AsciiPrefix(t);
    } else {
      ScalarIsPlain(t);
      EscapePlain(t, ScalarLen(t), InText);
    }
  }

  lemma {:induction false} EscapedStep(src: Source, s: Scan, b: byte, rest: seq<byte>)
    requires At(src, s, [BACKSLASH, b] + rest) && IsPunctuation(b)
    ensures s.pos < |src.text| && At(src, Push(s, [b], 2), rest)
    ensures Step(src, s) == if s.work + 1 > MAX_WORK then Refused(WorkLimit)
      else Done(Push(s, [b], 2).(work := s.work + 1))
  {
    hide PushStr;
    Ahead(src, s, [BACKSLASH, b], rest);
  }

  lemma {:induction false} PlainStep(src: Source, s: Scan, t: seq<byte>, rest: seq<byte>)
    requires ValidUtf8(t) && t != [] && !InText.Has(t[0])
    requires ScalarLen(t) > 0 && At(src, s, t[..ScalarLen(t)] + rest)
    ensures s.pos < |src.text| && At(src, Push(s, t[..ScalarLen(t)], ScalarLen(t)), rest)
    ensures Step(src, s)
      == if s.work + 1 > MAX_WORK then Refused(WorkLimit)
         else Done(Push(s, t[..ScalarLen(t)], ScalarLen(t)).(work := s.work + 1))
  {
    hide PushStr, CodeSpan, Emphasis, LinkClose, AutoLink, ValidUtf8;
    var n := ScalarLen(t);
    var left := src.text[s.pos..];
    Ahead(src, s, t[..n], rest);
    Cut(t[..n], rest);
    ScalarLenPrefix(t, left);
    assert src.text[s.pos] == t[0];
    assert CharLen(src.text, s.pos) == n;
  }

  lemma PushTwice(segments: seq<Piece>, a: seq<byte>, b: seq<byte>)
    requires a != []
    ensures PushStr(PushStr(segments, a), b) == PushStr(segments, a + b)
  {
    if b == [] {
      assert a + b == a;
    } else if segments == [] {
    } else {
      var n := |segments| - 1;
      assert segments[n].text + a + b == segments[n].text + (a + b);
    }
  }

  // The scan passes an escaped text, collecting the text itself.
  lemma {:induction false} TextScans(src: Source, s: Scan, t: seq<byte>, rest: seq<byte>) returns (end: Scan)
    requires ValidUtf8(t) && At(src, s, Escape(t, InText) + rest)
    ensures At(src, end, rest)
      && end == Scan(s.pos + |Escape(t, InText)|, end.work, PushStr(s.segments, t), s.opens, s.links)
    ensures Reaches(src, s, end, |t|)
    decreases |t|
  {
    hide Step, Complete, PushStr, Escape, ValidUtf8, ScalarLen, At, Reaches;
    if t == [] {
      EscapeNothing(InText);
      assert [] + rest == rest;
      PushNothing(s.segments);
      end := s;
      ReachesSelf(src, s);
    } else {
      EscapeFirst(t);
      var n := if InText.Has(t[0]) then 1 else ScalarLen(t);
      var tail := Escape(t[n..], InText) + rest;
      var pushed: Scan;
      if InText.Has(t[0]) {
        assert Escape(t, InText) + rest == [BACKSLASH, t[0]] + tail;
        EscapedStep(src, s, t[0], tail);
        pushed := Push(s, [t[0]], 2);
      } else {
        assert Escape(t, InText) + rest == t[..n] + tail;
        PlainStep(src, s, t, tail);
        pushed := Push(s, t[..n], n);
      }
      var next := StepReaches(src, s, 1, pushed.pos, pushed.segments, s.opens, s.links);
      SamePlace(src, pushed, next, tail);
      end := TextScans(src, next, t[n..], rest);
      ReachesOn(src, s, next, end, 1, |t| - n);
      ReachesMore(src, s, end, 1 + (|t| - n), |t|);
      PushTwice(s.segments, t[..n], t[n..]);
      assert t[..n] + t[n..] == t;
    }
  }

  lemma SamePlace(src: Source, a: Scan, b: Scan, rest: seq<byte>)
    requires At(src, a, rest) && a.pos == b.pos
    ensures At(src, b, rest)
  {}

  lemma ReachesMore(src: Source, s: Scan, end: Scan, cost: nat, more: nat)
    requires Reaches(src, s, end, cost) && cost <= more
    ensures Reaches(src, s, end, more)
  {
    hide Complete;
  }

  lemma PushNothing(segments: seq<Piece>)
    ensures PushStr(segments, []) == segments
  {}

  // At most one sealed empty segment.
  predicate Blank(segments: seq<Piece>) {
    segments == [] || segments == [EMPTY_PIECE]
  }

  // At most one segment, and no text in it.
  predicate Silent(segments: seq<Piece>) {
    |segments| <= 1 && forall i :: 0 <= i < |segments| ==> segments[i].text == []
  }

  lemma {:induction false} OnePiece(s: Scan, t: seq<byte>, found: seq<Mark>, marks: MarkSet, before: seq<Piece>,
                                    after: seq<Piece>)
    requires s.segments == before + [Piece(t, found)] + after && t != [] && s.opens == [] && s.links == []
    requires Silent(before) && Silent(after)
    requires marks.Valid() && forall m :: m in found <==> m in marks.marks
    ensures Finish(s) == Done([(t, marks)])
  {
    hide CanonicalMarks, Canonical, Consistent, Finish, Collect, AllConsistent;
    CanonicalIsUnique(found, marks.marks);
    CollectOne(before, Piece(t, found), after);
    FinishClosed(s);
  }

  lemma {:induction false} CollectOne(before: seq<Piece>, p: Piece, after: seq<Piece>)
    requires Silent(before) && Silent(after) && p.text != []
    ensures Collect(before + [p] + after) == [(p.text, MarkSet(CanonicalMarks(p.marks)))]
    ensures AllConsistent(before + [p] + after) <==> Consistent(p.marks)
  {
    hide CanonicalMarks, Consistent;
    var all := before + [p] + after;
    CollectBlank(before);
    assert (before + [p])[..|before|] == before;
    assert all[|before|] == p;
    if after != [] {
      assert after[0].text == [];
      assert all[..|before| + 1] == before + [p];
    } else {
      assert all == before + [p];
    }
  }

  lemma FinishClosed(s: Scan)
    requires s.opens == [] && s.links == []
    ensures Finish(s) == if AllConsistent(s.segments) then Done(Collect(s.segments)) else Refused(ConflictingMarks)
  {
    hide Collect, AllConsistent;
    SortNothing();
    assert PendingLinks([]) + PendingOpens([]) == [];
  }

  lemma CollectBlank(segments: seq<Piece>)
    requires Silent(segments)
    ensures Collect(segments) == [] && AllText(segments) == []
  {
    if segments != [] {
      assert segments[..0] == [];
      assert segments[0].text == [];
    }
  }

  lemma SortNothing()
    ensures SortPending([]) == []
  {}

  // An escaped text scans to that text, unmarked, at most one unit of work a byte.
  lemma {:induction false} EscapedTextRoundTrip(t: seq<byte>, markSize: nat, work: nat)
    requires ValidUtf8(t)
    ensures var r := ScanInline(Source(Escape(t, InText), markSize), work);
      var answer := if t == [] then [] else [(t, NO_MARKS)];
      Answers(r, Done(answer)) && (work + |t| <= MAX_WORK ==> r == Done(answer))
  {
    hide Escape, Run, Finish, ValidUtf8;
    var src := Source(Escape(t, InText), markSize);
    var s := Scan(0, work, [], [], []);
    assert src.text[0..] == Escape(t, InText) == Escape(t, InText) + [];
    var end := TextScans(src, s, t, []);
    CompleteEnd(src, end);
    if t == [] {
      PushNothing([]);
      FinishNothing(end);
    } else {
      assert end.segments == [] + [Piece(t, [])] + [];
      EmptyIsCanonical();
      OnePiece(end, t, [], NO_MARKS, [], []);
    }
  }

  lemma FinishNothing(s: Scan)
    requires s.segments == [] && s.opens == [] && s.links == []
    ensures Finish(s) == Done([])
  {
    hide Finish;
    FinishClosed(s);
  }
}
