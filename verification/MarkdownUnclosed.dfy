// Delimiters that are never closed: each goes in front of the segment it
// opened, the later ones first, so several at one place come back reversed
// (crates/xiaomu-codec-markdown/src/inline.rs:335-380).
module MarkdownUnclosed {
  import opened Wrappers
  import opened Text
  import opened Marks
  import opened MarkdownSyntax
  import opened MarkdownInline
  import opened MarkdownLaws
  import opened MarkdownRuns
  import opened MarkdownRoundTrip
  import opened MarkdownEmphasis
  import opened MarkdownRunLaws

  // ----- what is put in front of a segment

  // The literals that belong to segment `i`, the last one first.
  function Fronts(pending: seq<Pending>, i: nat): seq<byte> {
    if pending == [] then []
    else
      var n := |pending| - 1;
      (if pending[n].segStart == i then pending[n].literal else []) + Fronts(pending[..n], i)
  }

  function Front(p: Pending, i: nat): seq<byte> {
    if p.segStart == i then p.literal else []
  }

  lemma FrontsPush(pending: seq<Pending>, p: Pending, i: nat)
    ensures Fronts(pending + [p], i) == Front(p, i) + Fronts(pending, i)
  {
    assert (pending + [p])[..|pending|] == pending;
  }

  lemma {:induction false} FrontsConcat(a: seq<Pending>, b: seq<Pending>, i: nat)
    ensures Fronts(a + b, i) == Fronts(b, i) + Fronts(a, i)
  {
    hide Fronts, Front;
    NoFronts(i);
    if b == [] {
      assert a + b == a;
    } else {
      var n := |b| - 1;
      FrontsConcat(a, b[..n], i);
      FrontsPush(a + b[..n], b[n], i);
      FrontsPush(b[..n], b[n], i);
      assert b == b[..n] + [b[n]] && a + b == a + b[..n] + [b[n]];
    }
  }

  lemma FrontsOne(p: Pending, i: nat)
    ensures Fronts([p], i) == Front(p, i)
  {
    assert [p][..0] == [];
  }

  predicate Descending(pending: seq<Pending>) {
    forall i, j :: 0 <= i < j < |pending| ==> pending[i].segStart >= pending[j].segStart
  }

  lemma {:induction false} FrontsBelow(pending: seq<Pending>, i: nat)
    requires forall k :: 0 <= k < |pending| ==> pending[k].segStart < i
    ensures Fronts(pending, i) == []
  {
    if pending != [] {
      FrontsBelow(pending[..|pending| - 1], i);
    }
  }

  // The stable sort keeps the order within each segment.
  lemma {:induction false} InsertStable(sorted: seq<Pending>, p: Pending, i: nat)
    requires Descending(sorted)
    ensures Descending(InsertPending(sorted, p))
    ensures Fronts(InsertPending(sorted, p), i) == Fronts(sorted + [p], i)
  {
    hide Fronts;
    FrontsConcat(sorted, [p], i);
    if sorted == [] {
      assert [p] + sorted == sorted + [p];
    } else if sorted[0].segStart < p.segStart {
      FrontsConcat([p], sorted, i);
      FrontsOne(p, i);
      if p.segStart == i {
        FrontsBelow(sorted, i);
      }
    } else {
      var rest := sorted[1..];
      InsertStable(rest, p, i);
      InsertPendingMembers(rest, p);
      assert sorted == [sorted[0]] + rest;
      DescendingPush(sorted[0], InsertPending(rest, p));
      FrontsConcat([sorted[0]], InsertPending(rest, p), i);
      FrontsConcat(rest, [p], i);
      FrontsConcat([sorted[0]], rest, i);
    }
  }

  lemma DescendingPush(p: Pending, rest: seq<Pending>)
    requires Descending(rest) && forall q :: q in rest ==> q.segStart <= p.segStart
    ensures Descending([p] + rest)
  {
    assert forall k :: 0 <= k < |rest| ==> rest[k] in rest;
  }

  lemma {:induction false} SortStable(pending: seq<Pending>, i: nat)
    ensures Descending(SortPending(pending)) && Fronts(SortPending(pending), i) == Fronts(pending, i)
  {
    hide Fronts;
    if pending != [] {
      var n := |pending| - 1;
      SortStable(pending[..n], i);
      var sorted := SortPending(pending[..n]);
      InsertStable(sorted, pending[n], i);
      FrontsConcat(sorted, [pending[n]], i);
      FrontsConcat(pending[..n], [pending[n]], i);
      assert pending == pending[..n] + [pending[n]];
    } else {
      assert SortPending(pending) == [];
    }
  }

  // Each segment with its literals in front, its marks unchanged.
  function Fronted(segments: seq<Piece>, pending: seq<Pending>): (r: seq<Piece>)
    ensures |r| == |segments|
    ensures forall i :: 0 <= i < |r| ==>
      r[i] == Piece(Fronts(pending, i) + segments[i].text, segments[i].marks)
  {
    seq(|segments|, i requires 0 <= i < |segments| =>
      Piece(Fronts(pending, i) + segments[i].text, segments[i].marks))
  }

  predicate Within(pending: seq<Pending>, n: nat) {
    forall k :: 0 <= k < |pending| ==> pending[k].segStart < n
  }

  lemma {:induction false} SplicesFronts(s: Scan, pending: seq<Pending>)
    requires Within(pending, |s.segments|)
    ensures SpliceAll(s, pending).Done? ==> SpliceAll(s, pending).value.segments == Fronted(s.segments, pending)
    decreases |pending|
  {
    hide Fronts;
    if pending == [] {
      forall i | 0 <= i < |s.segments|
        ensures Fronted(s.segments, pending)[i] == s.segments[i]
      {
        NoFronts(i);
      }
    } else {
      var p := pending[0];
      var c := Charge(s, |s.segments[p.segStart].text|);
      if c.Done? {
        var next := c.value.(segments := SpliceLiteral(s.segments, p));
        SplicesFronts(next, pending[1..]);
        forall i | 0 <= i < |s.segments|
          ensures Fronted(next.segments, pending[1..])[i] == Fronted(s.segments, pending)[i]
        {
          assert pending == [p] + pending[1..];
          FrontsConcat([p], pending[1..], i);
          FrontsOne(p, i);
        }
      }
    }
  }

  lemma NoFronts(i: nat)
    ensures Fronts([], i) == []
  {}

  // The finished runs are the segments with their unclosed delimiters in front:
  // brackets are put back before emphasis, so they stand behind it.
  lemma {:induction false} FinishMeans(s: Scan)
    requires forall k :: 0 <= k < |s.links| ==> s.links[k] < |s.segments|
    requires forall k :: 0 <= k < |s.opens| ==> s.opens[k].segStart < |s.segments|
    ensures var segments := Fronted(s.segments, PendingLinks(s.links) + PendingOpens(s.opens));
      && (Finish(s).Done? ==> AllConsistent(segments) && Finish(s).value == Collect(segments))
      && (Finish(s).Refused? && AllConsistent(segments) ==> Finish(s).error == WorkLimit)
  {
    hide Fronts, SortPending, SpliceAll, Collect, AllConsistent;
    var pending := PendingLinks(s.links) + PendingOpens(s.opens);
    var sorted := SortPending(pending);
    SortPendingMembers(pending);
    forall k | 0 <= k < |sorted|
      ensures sorted[k].segStart < |s.segments|
    {
      assert sorted[k] in pending;
    }
    var start := s.(opens := [], links := []);
    SplicesFronts(start, sorted);
    PendingAreLiterals(s.links, s.opens);
    SpliceAllKeeps(start, sorted);
    forall i | 0 <= i < |s.segments|
      ensures Fronted(s.segments, sorted)[i] == Fronted(s.segments, pending)[i]
    {
      SortStable(pending, i);
    }
    assert Fronted(s.segments, sorted) == Fronted(s.segments, pending);
  }

  // One segment more: a run when it has text, with the canonical set of its marks.
  lemma {:induction false} CollectPush(segments: seq<Piece>, p: Piece, marks: MarkSet)
    requires marks.Valid() && forall m :: m in p.marks <==> m in marks.marks
    ensures Collect(segments + [p]) == Collect(segments) + if p.text == [] then [] else [(p.text, marks)]
    ensures AllConsistent(segments + [p]) <==> AllConsistent(segments) && (p.text == [] || Consistent(p.marks))
  {
    hide CanonicalMarks, Canonical, Consistent;
    CanonicalIsUnique(p.marks, marks.marks);
    assert (segments + [p])[..|segments|] == segments;
    assert forall i :: 0 <= i < |segments| ==> (segments + [p])[i] == segments[i];
  }

  // ----- delimiters before a text

  function Turned(tokens: seq<EmphToken>): (r: seq<EmphToken>)
    ensures |r| == |tokens| && forall i :: 0 <= i < |r| ==> r[i] == tokens[|tokens| - 1 - i]
  {
    seq(|tokens|, i requires 0 <= i < |tokens| => tokens[|tokens| - 1 - i])
  }

  lemma {:induction false} FrontsAreTurned(tokens: seq<EmphToken>)
    ensures Fronts(PendingOpens(OpensFor(tokens)), 0) == Literals(Turned(tokens))
  {
    var pending := PendingOpens(OpensFor(tokens));
    if tokens == [] {
      assert Turned(tokens) == [] && pending == [];
    } else {
      var n := |tokens| - 1;
      FrontsAreTurned(tokens[..n]);
      assert pending[..n] == PendingOpens(OpensFor(tokens[..n]));
      assert Turned(tokens) == [tokens[n]] + Turned(tokens[..n]);
      assert Turned(tokens)[1..] == Turned(tokens[..n]);
    }
  }

  lemma {:induction false} FinishTurned(s: Scan, tokens: seq<EmphToken>, t: seq<byte>)
    requires s.segments == [Piece(t, [])] && s.opens == OpensFor(tokens) && s.links == [] && t != []
    ensures Answers(Finish(s), Done([(Literals(Turned(tokens)) + t, NO_MARKS)]))
    ensures |tokens| <= 3 && s.work + 3 * |t| + 18 <= MAX_WORK ==> Finish(s).Done?
  {
    hide Finish, Literals, Collect, Fronts, AllConsistent;
    FinishMeans(s);
    FrontsAreTurned(tokens);
    assert PendingLinks(s.links) + PendingOpens(s.opens) == PendingOpens(s.opens);
    var shown := Piece(Literals(Turned(tokens)) + t, []);
    var segments := Fronted(s.segments, PendingOpens(s.opens));
    assert segments == [shown];
    EmptyIsCanonical();
    var none: seq<Piece> := [];
    assert none + [shown] == [shown];
    CollectPush(none, shown, NO_MARKS);
    CollectsNothing();
    NothingConflicts(shown);
    assert AllConsistent(segments) && Collect(segments) == [(shown.text, NO_MARKS)];
    if |tokens| <= 3 && s.work + 3 * |t| + 18 <= MAX_WORK {
      FinishAffordable(s);
    }
  }

  lemma {:induction false} SplicesAffordable(s: Scan, pending: seq<Pending>)
    requires |s.segments| == 1
    requires forall k :: 0 <= k < |pending| ==> pending[k].segStart == 0 && |pending[k].literal| <= 2
    requires s.work + |pending| * (|s.segments[0].text| + 2 * |pending|) <= MAX_WORK
    ensures SpliceAll(s, pending).Done?
    decreases |pending|
  {
    if pending != [] {
      var n, len := |pending|, |s.segments[0].text|;
      assert n * (len + 2 * n) == (n - 1) * (len + 2 * n) + len + 2 * n;
      var c := Charge(s, len);
      var next := c.value.(segments := SpliceLiteral(s.segments, pending[0]));
      assert |next.segments[0].text| + 2 * (n - 1) <= len + 2 * n;
      TimesMore(|next.segments[0].text| + 2 * (n - 1), len + 2 * n, n - 1);
      SplicesAffordable(next, pending[1..]);
    }
  }

  lemma {:induction false} FinishAffordable(s: Scan)
    requires |s.segments| == 1 && |s.opens| <= 3 && s.links == []
    requires forall k :: 0 <= k < |s.opens| ==> s.opens[k].segStart == 0
    requires s.work + 3 * |s.segments[0].text| + 18 <= MAX_WORK
    ensures Finish(s).Refused? ==> Finish(s).error == ConflictingMarks
  {
    hide SpliceAll, SortPending, AllConsistent, Collect;
    var pending := PendingLinks(s.links) + PendingOpens(s.opens);
    var sorted := SortPending(pending);
    SortPendingMembers(pending);
    forall k | 0 <= k < |sorted|
      ensures sorted[k].segStart == 0 && |sorted[k].literal| <= 2
    {
      assert sorted[k] in pending;
    }
    var n, len := |sorted|, |s.segments[0].text|;
    TimesMore(n, 3, len + 2 * n);
    SplicesAffordable(s.(opens := [], links := []), sorted);
  }

  lemma CollectsNothing()
    ensures Collect([]) == [] && AllConsistent([])
  {}

  lemma NothingConflicts(p: Piece)
    requires p.marks == []
    ensures Consistent(p.marks)
  {}

  // Opening delimiters that are never closed come back in front of the text in
  // the opposite order.
  lemma {:induction false} UnclosedComeBackTurned(tokens: seq<EmphToken>, t: seq<byte>, markSize: nat, work: nat)
    requires Opening(tokens) && tokens != [] && ValidUtf8(t) && t != [] && !IsSpaceByte(t[0])
    ensures var src := Source(Literals(tokens) + Escape(t, InText), markSize);
      && Answers(ScanInline(src, work), Done([(Literals(Turned(tokens)) + t, NO_MARKS)]))
      && (work + 4 * |t| + 27 <= MAX_WORK ==> ScanInline(src, work).Done?)
  {
    hide Escape, Run, Finish, ValidUtf8, Literals, IsSpaceByte, Opening, OpenCost, ScanInline;
    var src := Source(Literals(tokens) + Escape(t, InText), markSize);
    var s := Scan(0, work, [], [], []);
    StartOfText(Literals(tokens), Escape(t, InText));
    StartIsComplete(src, s);
    var read := OpenAndRead(src, s, t, tokens, []);
    CompleteEnd(src, read);
    FinishTurned(read, tokens, t);
    AtMostThree(tokens);
    OpensCheaply(|tokens|);
  }

  lemma OpensCheaply(n: nat)
    requires n <= 3
    ensures OpenCost(n, 0) <= 9
  {
    assert OpenCost(3, 0) == 2 + OpenCost(2, 1) && OpenCost(2, 1) == 3 + OpenCost(1, 2) && OpenCost(1, 2) == 4;
    assert OpenCost(2, 0) == 2 + OpenCost(1, 1) && OpenCost(1, 1) == 3 && OpenCost(1, 0) == 2;
  }

  lemma StartOfText(a: seq<byte>, b: seq<byte>)
    ensures (a + b)[0..] == a + (b + [])
  {}

  // In order exactly when there is one, or a bold one before an italic one: the
  // three stars read the same both ways.
  lemma {:induction false} TurnedIsSame(tokens: seq<EmphToken>)
    requires Opening(tokens)
    ensures Literals(Turned(tokens)) == Literals(tokens) <==> |tokens| <= 1 || tokens == [BoldToken, ItalicToken]
  {
    hide Literals;
    AtMostThree(tokens);
    if |tokens| <= 1 {
      assert Turned(tokens) == tokens;
    } else if |tokens| == 2 {
      assert Turned(tokens) == [tokens[1], tokens[0]] && tokens == [tokens[0], tokens[1]];
      LiteralsTwo(tokens[0], tokens[1]);
      LiteralsTwo(tokens[1], tokens[0]);
      assert Literals(tokens)[0] == tokens[0].Literal()[0] && Literals(Turned(tokens))[0] == tokens[1].Literal()[0];
    } else {
      assert Turned(tokens) == [tokens[2], tokens[1], tokens[0]] && tokens == [tokens[0], tokens[1], tokens[2]];
      LiteralsThree(tokens[0], tokens[1], tokens[2]);
      LiteralsThree(tokens[2], tokens[1], tokens[0]);
      assert Literals(tokens)[0] == tokens[0].Literal()[0] && Literals(Turned(tokens))[0] == STAR;
      assert tokens[0] == BoldToken ==> Literals(tokens)[1] == STAR && Literals(Turned(tokens))[1] == TILDE;
    }
  }

  lemma LiteralsTwo(a: EmphToken, b: EmphToken)
    ensures Literals([a, b]) == a.Literal() + b.Literal()
  {
    assert [a, b][1..] == [b] && [b][1..] == [];
    assert Literals([b]) == b.Literal() + [];
  }

  lemma LiteralsThree(a: EmphToken, b: EmphToken, c: EmphToken)
    ensures Literals([a, b, c]) == a.Literal() + (b.Literal() + c.Literal())
  {
    assert [a, b, c][1..] == [b, c];
    LiteralsTwo(b, c);
  }

  lemma {:induction false} OpeningDistinct(tokens: seq<EmphToken>)
    requires Opening(tokens)
    ensures forall i, j :: 0 <= i < j < |tokens| ==> tokens[i] != tokens[j]
    ensures forall i :: 0 <= i < |tokens| - 1 ==> !tokens[i].ItalicToken?
  {
    if tokens != [] {
      var rest := tokens[1..];
      OpeningDistinct(rest);
      assert forall i :: 0 < i < |tokens| ==> tokens[i] == rest[i - 1] && tokens[i] in rest;
    }
  }

  lemma AtMostThree(tokens: seq<EmphToken>)
    requires Opening(tokens)
    ensures |tokens| <= 3 && forall i, j :: 0 <= i < j < |tokens| ==> tokens[i] != tokens[j]
    ensures |tokens| > 1 ==> !tokens[0].ItalicToken?
    ensures |tokens| > 2 ==> tokens[2].ItalicToken? && !tokens[1].ItalicToken?
  {
    OpeningDistinct(tokens);
  }
}
