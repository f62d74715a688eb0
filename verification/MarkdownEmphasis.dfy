// Delimiters around a text: read back when neither end of it is a space, and
// never otherwise.
module MarkdownEmphasis {
  import opened Wrappers
  import opened Numbers
  import opened Text
  import opened Marks
  import opened MarkdownSyntax
  import opened MarkdownInline
  import opened MarkdownLaws
  import opened MarkdownRuns
  import opened MarkdownRoundTrip

  // ----- one delimiter

  lemma {:induction false} TokenAhead(src: Source, s: Scan, token: EmphToken, rest: seq<byte>)
    requires At(src, s, token.Literal() + rest) && (token.ItalicToken? ==> rest == [] || rest[0] != STAR)
    ensures s.pos < |src.text| && (src.text[s.pos] == STAR || src.text[s.pos] == TILDE)
    ensures TokenAt(src.text, s.pos) == Some(token)
    ensures s.pos + |token.Literal()| <= |src.text| && src.text[s.pos + |token.Literal()|..] == rest
    ensures rest == [] <==> s.pos + |token.Literal()| == |src.text|
    ensures rest != [] ==> src.text[s.pos + |token.Literal()|] == rest[0]
    ensures !IsSpaceByte(src.text[s.pos + |token.Literal()| - 1])
  {
    Ahead(src, s, token.Literal(), rest);
    var w := |token.Literal()|;
    assert src.text[s.pos + (w - 1)] == token.Literal()[w - 1];
  }

  lemma StepIsEmphasis(src: Source, s: Scan)
    requires s.pos < |src.text| && (src.text[s.pos] == STAR || src.text[s.pos] == TILDE)
    ensures Step(src, s) == if s.work + 1 > MAX_WORK then Refused(WorkLimit) else Emphasis(src, s.(work := s.work + 1))
  {
    hide Emphasis;
  }

  // Whether the delimiter may close.
  predicate AfterText(src: Source, s: Scan) {
    0 < s.pos <= |src.text| && !IsSpaceByte(src.text[s.pos - 1])
  }

  lemma {:induction false} OpenStep(src: Source, s: Scan, token: EmphToken, rest: seq<byte>)
    requires At(src, s, token.Literal() + rest) && (token.ItalicToken? ==> rest == [] || rest[0] != STAR)
    requires AfterText(src, s) ==> LastOpen(s.opens, token).None?
    ensures s.pos < |src.text|
    ensures rest != [] && !IsSpaceByte(rest[0]) ==>
      Becomes(Step(src, s), s, 1 + |s.opens| + |s.segments|, s.pos + |token.Literal()|, Seal(s.segments),
              s.opens + [EmphOpen(token, |Seal(s.segments)| - 1)], s.links)
    ensures rest == [] || IsSpaceByte(rest[0]) ==>
      Becomes(Step(src, s), s, 1 + |s.opens| + |s.segments|, s.pos + |token.Literal()|,
              PushStr(s.segments, token.Literal()), s.opens, s.links)
  {
    hide Step, Seal, PushStr, TokenAt, IsSpaceByte, LastOpen;
    TokenAhead(src, s, token, rest);
    StepIsEmphasis(src, s);
  }

  lemma {:induction false} CloseStep(src: Source, s: Scan, token: EmphToken, rest: seq<byte>, index: nat)
    requires At(src, s, token.Literal() + rest) && (token.ItalicToken? ==> rest == [] || rest[0] != STAR)
    requires AfterText(src, s) && LastOpen(s.opens, token) == Some(index)
    ensures s.pos < |src.text| && index < |s.opens|
    ensures Becomes(Step(src, s), s,
                    1 + |s.opens| + |s.segments| + Less(|Seal(s.segments)| - 1, s.opens[index].segStart) * src.markSize,
                    s.pos + |token.Literal()|,
                    MarkRange(Seal(s.segments), s.opens[index].segStart, |Seal(s.segments)| - 1, token.AsMark()),
                    s.opens[..index] + s.opens[index + 1..], s.links)
  {
    hide Step, Seal, MarkRange, TokenAt, IsSpaceByte, LastOpen, Less, EmphClose, EmphOpenOrText;
    TokenAhead(src, s, token, rest);
    StepIsEmphasis(src, s);
    LastOpenInRange(s.opens, token);
    CloseIs(src, s.(work := s.work + 1 + (|s.opens| + |s.segments|)), token, index);
  }

  lemma CloseIs(src: Source, s: Scan, token: EmphToken, index: nat)
    requires index < |s.opens|
    ensures Becomes(EmphClose(src, s, token, index), s,
        Less(|Seal(s.segments)| - 1, s.opens[index].segStart) * src.markSize,
                    s.pos + |token.Literal()|,
                    MarkRange(Seal(s.segments), s.opens[index].segStart, |Seal(s.segments)| - 1, token.AsMark()),
                    s.opens[..index] + s.opens[index + 1..], s.links)
  {
    hide Seal, MarkRange, Less;
  }

  lemma LastOpenInRange(opens: seq<EmphOpen>, token: EmphToken)
    ensures var r := LastOpen(opens, token); r.Some? ==> r.value < |opens| && opens[r.value].token == token
    ensures LastOpen(opens, token).None? <==> forall i :: 0 <= i < |opens| ==> opens[i].token != token
  {}

  // Whatever a delimiter does, it closes at most one other and takes no text away.
  lemma {:induction false} AnyTokenStep(src: Source, s: Scan, token: EmphToken, rest: seq<byte>)
    requires At(src, s, token.Literal() + rest) && (token.ItalicToken? ==> rest == [] || rest[0] != STAR)
    ensures s.pos < |src.text|
    ensures var r := Step(src, s);
      if r.Refused? then r.error == WorkLimit
      else
        && At(src, r.value, rest) && r.value.links == s.links && Grows(s.segments, r.value.segments)
        && |r.value.opens| + 1 >= |s.opens|
  {
    hide Step, Seal, PushStr, MarkRange, TokenAt, IsSpaceByte, LastOpen, Grows;
    TokenAhead(src, s, token, rest);
    StepIsEmphasis(src, s);
    EmphasisGrows(src, s.(work := s.work + 1));
    LastOpenInRange(s.opens, token);
  }

  // ----- all the opening delimiters

  predicate Unopened(opens: seq<EmphOpen>, tokens: seq<EmphToken>) {
    forall i :: 0 <= i < |opens| ==> opens[i].token !in tokens
  }

  lemma LiteralStarts(token: EmphToken, rest: seq<byte>)
    ensures token.Literal() + rest != [] && !IsSpaceByte((token.Literal() + rest)[0])
  {}

  // Delimiters opened before any text.
  function OpensFor(tokens: seq<EmphToken>): (r: seq<EmphOpen>)
    ensures |r| == |tokens| && forall i :: 0 <= i < |r| ==> r[i] == EmphOpen(tokens[i], 0)
  {
    seq(|tokens|, i requires 0 <= i < |tokens| => EmphOpen(tokens[i], 0))
  }

  function Opened(s: Scan, tokens: seq<EmphToken>, work: nat): Scan {
    Scan(s.pos + |Literals(tokens)|, work, if tokens == [] then s.segments
      else [EMPTY_PIECE], s.opens + OpensFor(tokens), s.links)
  }

  // The work of opening `n` delimiters when `k` are open and nothing is shown.
  function OpenCost(n: nat, k: nat): nat {
    if n == 0 then 0 else 2 + k + OpenCost(n - 1, k + 1)
  }

  // A text that starts visibly lets every delimiter before it open.
  lemma {:induction false} OpenAll(src: Source, s: Scan, tokens: seq<EmphToken>, rest: seq<byte>) returns (work: nat)
    requires At(src, s, Literals(tokens) + rest) && Opening(tokens) && Unopened(s.opens, tokens)
    requires rest != [] && !IsSpaceByte(rest[0]) && rest[0] != STAR && Blank(s.segments)
    ensures Reaches(src, s, Opened(s, tokens, work), OpenCost(|tokens|, |s.opens|))
    decreases |tokens|
  {
    hide Step, Complete, IsSpaceByte, LastOpen, At, Opening, Seal, PushStr, Reaches;
    if tokens == [] {
      assert Opened(s, tokens, s.work) == s by {
        assert s.opens + OpensFor([]) == s.opens;
      }
      work := s.work;
      ReachesSelf(src, s);
    } else {
      var token := tokens[0];
      var next := Literals(tokens[1..]) + rest;
      assert Literals(tokens) + rest == token.Literal() + next;
      NextToken(tokens[1..], rest);
      OpeningHead(tokens);
      LastOpenInRange(s.opens, token);
      OpenStep(src, s, token, next);
      var cost := 1 + |s.opens| + |s.segments|;
      var t := StepReaches(src, s, cost, s.pos + |token.Literal()|, Seal(s.segments),
                           s.opens + [EmphOpen(token, |Seal(s.segments)| - 1)], s.links);
      AtNext(src, s, t, token.Literal(), next);
      SealBlank(s.segments);
      Reopened(s.opens, tokens);
      work := OpenAll(src, t, tokens[1..], rest);
      assert Opened(t, tokens[1..], work) == Opened(s, tokens, work);
      ReachesOn(src, s, t, Opened(s, tokens, work), cost, OpenCost(|tokens| - 1, |s.opens| + 1));
      ReachesMore(src, s, Opened(s, tokens, work), cost + OpenCost(|tokens| - 1, |s.opens| + 1),
                  OpenCost(|tokens|, |s.opens|));
    }
  }

  lemma AtNext(src: Source, s: Scan, t: Scan, a: seq<byte>, b: seq<byte>)
    requires At(src, s, a + b) && t.pos == s.pos + |a|
    ensures At(src, t, b)
  {
    Ahead(src, s, a, b);
  }

  lemma {:induction false} Reopened(opens: seq<EmphOpen>, tokens: seq<EmphToken>)
    requires tokens != [] && Opening(tokens) && Unopened(opens, tokens)
    ensures opens + OpensFor(tokens) == opens + [EmphOpen(tokens[0], 0)] + OpensFor(tokens[1..])
    ensures Unopened(opens + [EmphOpen(tokens[0], 0)], tokens[1..])
  {
    hide Opening;
    OpeningHead(tokens);
    var more := opens + [EmphOpen(tokens[0], 0)];
    forall i | 0 <= i < |more|
      ensures more[i].token !in tokens[1..]
    {
      if i < |opens| {
        assert more[i] == opens[i];
        NotInTail(tokens, more[i].token);
      }
    }
  }

  lemma OpeningHead(tokens: seq<EmphToken>)
    requires tokens != [] && Opening(tokens)
    ensures tokens[0] !in tokens[1..] && Opening(tokens[1..]) && (tokens[0].ItalicToken? ==> tokens[1..] == [])
  {}

  lemma NotInTail<T>(s: seq<T>, x: T)
    requires s != [] && x !in s
    ensures x !in s[1..]
  {}

  lemma SealBlank(segments: seq<Piece>)
    requires Blank(segments)
    ensures Seal(segments) == [EMPTY_PIECE]
  {}

  // What follows a delimiter: another one, or the text.
  lemma NextToken(tokens: seq<EmphToken>, rest: seq<byte>)
    requires rest != [] && !IsSpaceByte(rest[0]) && rest[0] != STAR
    ensures var next := Literals(tokens) + rest;
      next != [] && !IsSpaceByte(next[0]) && (tokens == [] ==> next[0] != STAR)
  {
    if tokens != [] {
      LiteralStarts(tokens[0], Literals(tokens[1..]) + rest);
      assert Literals(tokens) + rest == tokens[0].Literal() + (Literals(tokens[1..]) + rest);
    }
  }

  // A text that starts with a space leaves the delimiter before it as text.
  lemma {:induction false} OpenBlocked(src: Source, s: Scan, tokens: seq<EmphToken>, rest: seq<byte>, t: seq<byte>,
                                       marks: MarkSet)
    requires At(src, s, Literals(tokens) + rest) && Opening(tokens) && Unopened(s.opens, tokens) && tokens != []
    requires rest != [] && IsSpaceByte(rest[0]) && Blank(s.segments) && t != [] && IsSpaceByte(t[0])
    ensures Complete(src, s) != Done([(t, marks)])
    decreases |tokens|
  {
    hide Step, Complete, LastOpen, At, Opening, Seal, PushStr, AllText;
    var token := tokens[0];
    var next := Literals(tokens[1..]) + rest;
    assert Literals(tokens) + rest == token.Literal() + next;
    OpeningHead(tokens);
    LastOpenInRange(s.opens, token);
    if tokens[1..] == [] {
      assert next == rest;
      BlankText(s.segments);
      PushGrows(s.segments, token.Literal());
    } else {
      LiteralStarts(tokens[1], Literals(tokens[2..]) + rest);
      assert next == tokens[1].Literal() + (Literals(tokens[2..]) + rest) by {
        assert tokens[1..][1..] == tokens[2..];
      }
    }
    OpenStep(src, s, token, next);
    CompleteStep(src, s);
    if Step(src, s).Done? {
      var after := Step(src, s).value;
      if tokens[1..] == [] {
        StartsWrong(src, after, t, marks);
      } else {
        AtNext(src, s, after, token.Literal(), next);
        SealBlank(s.segments);
        Reopened(s.opens, tokens);
        OpenBlocked(src, after, tokens[1..], rest, t, marks);
      }
    }
  }

  lemma BlankText(segments: seq<Piece>)
    requires Blank(segments)
    ensures AllText(segments) == []
  {
    if segments != [] {
      assert segments[..0] == [];
    }
  }

  // ----- all the closing delimiters

  // The text with its marks so far, perhaps sealed.
  predicate Held(segments: seq<Piece>, t: seq<byte>, marks: seq<Mark>) {
    segments == [Piece(t, marks)] || segments == [Piece(t, marks), EMPTY_PIECE]
  }

  function TokensOf(opens: seq<EmphOpen>): (r: seq<EmphToken>)
    ensures |r| == |opens| && forall i :: 0 <= i < |r| ==> r[i] == opens[i].token
  {
    seq(|opens|, i requires 0 <= i < |opens| => opens[i].token)
  }

  // These delimiters are open, all from the start.
  predicate Open(opens: seq<EmphOpen>, tokens: seq<EmphToken>) {
    multiset(TokensOf(opens)) == multiset(tokens) && forall i :: 0 <= i < |opens| ==> opens[i].segStart == 0
  }

  lemma {:induction false} OpenHas(opens: seq<EmphOpen>, tokens: seq<EmphToken>)
    requires Open(opens, tokens) && tokens != []
    ensures LastOpen(opens, tokens[0]).Some?
  {
    hide LastOpen;
    LastOpenInRange(opens, tokens[0]);
    assert tokens[0] in multiset(TokensOf(opens));
    var i :| 0 <= i < |opens| && TokensOf(opens)[i] == tokens[0];
  }

  lemma Cancel<T>(a: multiset<T>, b: multiset<T>, c: multiset<T>)
    requires a + c == b + c
    ensures a == b
  {
    forall x: T
      ensures a[x] == b[x]
    {
      assert (a + c)[x] == (b + c)[x];
    }
  }

  lemma {:induction false} OpenRest(opens: seq<EmphOpen>, tokens: seq<EmphToken>, index: nat)
    requires Open(opens, tokens) && tokens != [] && index < |opens| && opens[index].token == tokens[0]
    ensures Open(opens[..index] + opens[index + 1..], tokens[1..])
  {
    var all, less := TokensOf(opens), TokensOf(opens[..index] + opens[index + 1..]);
    assert all == all[..index] + [all[index]] + all[index + 1..];
    assert less == all[..index] + all[index + 1..];
    assert multiset(all) == multiset(less) + multiset{tokens[0]};
    assert multiset(all) == multiset(tokens);
    assert tokens == [tokens[0]] + tokens[1..];
    assert multiset(tokens) == multiset(tokens[1..]) + multiset{tokens[0]};
    Cancel(multiset(less), multiset(tokens[1..]), multiset{tokens[0]});
  }

  lemma NoneOpen(opens: seq<EmphOpen>)
    requires Open(opens, [])
    ensures opens == []
  {
    assert |multiset(TokensOf(opens))| == |opens|;
  }

  lemma HeldMarked(segments: seq<Piece>, t: seq<byte>, marks: seq<Mark>, m: Mark)
    requires Held(segments, t, marks) && t != []
    ensures |segments| <= 2 && |Seal(segments)| == 2
      && MarkRange(Seal(segments), 0, 1, m) == [Piece(t, marks + [m]), EMPTY_PIECE]
  {}

  lemma TokenizesRest(tokens: seq<EmphToken>, rest: seq<byte>)
    requires tokens != [] && Tokenizes(tokens, rest)
    ensures Tokenizes(tokens[1..], rest)
    ensures tokens[0].ItalicToken? ==> Literals(tokens[1..]) + rest == [] || (Literals(tokens[1..]) + rest)[0] != STAR
  {}

  // The work of closing `n` delimiters around the one text.
  function CloseCost(n: nat, markSize: nat): nat {
    if n == 0 then 0 else 3 + n + markSize + CloseCost(n - 1, markSize)
  }

  lemma {:induction false} CloseOne(src: Source, s: Scan, tokens: seq<EmphToken>, t: seq<byte>, marks: seq<Mark>,
                                    rest: seq<byte>) returns (next: Scan)
    requires At(src, s, Literals(tokens) + rest) && Tokenizes(tokens, rest) && Open(s.opens, tokens) && tokens != []
    requires AfterText(src, s) && Held(s.segments, t, marks) && t != []
    ensures Reaches(src, s, next, 3 + |tokens| + src.markSize)
    ensures At(src, next, Literals(tokens[1..]) + rest) && Open(next.opens, tokens[1..]) && AfterText(src, next)
    ensures Held(next.segments, t, marks + [tokens[0].AsMark()]) && next.links == s.links
  {
    hide Step, IsSpaceByte, LastOpen, At, Seal, MarkRange, Held, Open, Tokenizes, Reaches, Becomes, Literals, Less;
    OneMarked(src.markSize);
    var token := tokens[0];
    var tail := Literals(tokens[1..]) + rest;
    LiteralsSplit(tokens, rest);
    TokenizesRest(tokens, rest);
    OpenHas(s.opens, tokens);
    OpenCount(s.opens, tokens);
    var index := LastOpen(s.opens, token).value;
    LastOpenInRange(s.opens, token);
    FromStart(s.opens, tokens, index);
    CloseStep(src, s, token, tail, index);
    TokenAhead(src, s, token, tail);
    HeldMarked(s.segments, t, marks, token.AsMark());
    HeldSealed(t, marks + [token.AsMark()]);
    OpenRest(s.opens, tokens, index);
    var cost := 1 + |s.opens| + |s.segments| + Less(|Seal(s.segments)| - 1, 0) * src.markSize;
    assert |Seal(s.segments)| - 1 == 1;
    next := StepReaches(src, s, cost, s.pos + |token.Literal()|,
                        MarkRange(Seal(s.segments), 0, |Seal(s.segments)| - 1, token.AsMark()),
                        s.opens[..index] + s.opens[index + 1..], s.links);
    AtNext(src, s, next, token.Literal(), tail);
    ReachesMore(src, s, next, cost, 3 + |tokens| + src.markSize);
  }

  lemma LiteralsSplit(tokens: seq<EmphToken>, rest: seq<byte>)
    requires tokens != []
    ensures Literals(tokens) + rest == tokens[0].Literal() + (Literals(tokens[1..]) + rest)
  {}

  lemma OneMarked(markSize: nat)
    ensures Less(1, 0) * markSize == markSize
  {}

  lemma OpenCount(opens: seq<EmphOpen>, tokens: seq<EmphToken>)
    requires Open(opens, tokens)
    ensures |opens| == |tokens|
  {
    assert |multiset(TokensOf(opens))| == |multiset(tokens)|;
  }

  // After a text that ends visibly every open delimiter closes.
  lemma {:induction false} CloseAll(src: Source, s: Scan, tokens: seq<EmphToken>, t: seq<byte>, marks: seq<Mark>,
                                    rest: seq<byte>) returns (end: Scan)
    requires At(src, s, Literals(tokens) + rest) && Tokenizes(tokens, rest) && Open(s.opens, tokens)
    requires AfterText(src, s) && Held(s.segments, t, marks) && t != []
    ensures Reaches(src, s, end, CloseCost(|tokens|, src.markSize))
    ensures At(src, end, rest) && end.opens == [] && end.links == s.links
      && Held(end.segments, t, marks + AsMarks(tokens))
    decreases |tokens|
  {
    hide AfterText, At, Held, Open, Tokenizes, Reaches, Literals, CloseCost;
    CloseCostStep(|tokens|, src.markSize);
    if tokens == [] {
      TokenizesNothing(rest);
      NoneOpen(s.opens);
      assert marks + AsMarks([]) == marks;
      end := s;
      ReachesSelf(src, s);
    } else {
      var next := CloseOne(src, s, tokens, t, marks, rest);
      TokenizesRest(tokens, rest);
      end := CloseAll(src, next, tokens[1..], t, marks + [tokens[0].AsMark()], rest);
      AsMarksStep(marks, tokens);
      ReachesOn(src, s, next, end, 3 + |tokens| + src.markSize, CloseCost(|tokens| - 1, src.markSize));
    }
  }

  lemma CloseCostStep(n: nat, markSize: nat)
    ensures CloseCost(0, markSize) == 0
    ensures n > 0 ==> CloseCost(n, markSize) == 3 + n + markSize + CloseCost(n - 1, markSize)
  {}

  lemma AsMarksStep(marks: seq<Mark>, tokens: seq<EmphToken>)
    requires tokens != []
    ensures marks + [tokens[0].AsMark()] + AsMarks(tokens[1..]) == marks + AsMarks(tokens)
  {}

  lemma FromStart(opens: seq<EmphOpen>, tokens: seq<EmphToken>, index: nat)
    requires Open(opens, tokens) && index < |opens|
    ensures opens[index].segStart == 0
  {}

  lemma HeldSealed(t: seq<byte>, marks: seq<Mark>)
    ensures Held([Piece(t, marks), EMPTY_PIECE], t, marks)
  {}

  // ----- delimiters after a text that ends with a space

  // More text than `t`, or more open delimiters than can still close.
  predicate Stuck(s: Scan, t: seq<byte>, left: nat) {
    && s.segments != [] && s.segments[0].text != [] && |AllText(s.segments)| >= |t|
    && (|AllText(s.segments)| > |t| || |s.opens| > left)
  }

  lemma {:induction false} StuckStep(s: Scan, after: Scan, t: seq<byte>, left: nat)
    requires Stuck(s, t, left + 1) && Grows(s.segments, after.segments) && |after.opens| + 1 >= |s.opens|
    ensures Stuck(after, t, left)
  {
    hide AllText;
    GrowsText(s.segments, after.segments);
  }

  lemma {:induction false} StuckAll(src: Source, s: Scan, tokens: seq<EmphToken>, t: seq<byte>, rest: seq<byte>)
    returns (end: Scan)
    requires At(src, s, Literals(tokens) + rest) && Tokenizes(tokens, rest) && Stuck(s, t, |tokens|)
    ensures Complete(src, s) == Refused(WorkLimit)
      || (Complete(src, s) == Complete(src, end) && At(src, end, rest) && end.links == s.links && Stuck(end, t, 0))
    decreases |tokens|
  {
    hide Step, Complete, At, Stuck, Tokenizes, Grows;
    end := s;
    if tokens == [] {
      assert [] + rest == rest;
    } else {
      var token := tokens[0];
      var next := Literals(tokens[1..]) + rest;
      assert Literals(tokens) + rest == token.Literal() + next;
      TokenizesRest(tokens, rest);
      AnyTokenStep(src, s, token, next);
      CompleteStep(src, s);
      if Step(src, s).Done? {
        StuckStep(s, Step(src, s).value, t, |tokens| - 1);
        end := StuckAll(src, Step(src, s).value, tokens[1..], t, rest);
      }
    }
  }

  // The first delimiter after such a text opens anew or is text itself.
  lemma {:induction false} FirstStuck(src: Source, s: Scan, tokens: seq<EmphToken>, t: seq<byte>, rest: seq<byte>)
    returns (end: Scan)
    requires At(src, s, Literals(tokens) + rest) && Tokenizes(tokens, rest) && tokens != []
    requires !AfterText(src, s) && s.segments == [Piece(t, [])] && t != [] && |s.opens| == |tokens|
    ensures Complete(src, s) == Refused(WorkLimit)
      || (Complete(src, s) == Complete(src, end) && At(src, end, rest) && end.links == s.links && Stuck(end, t, 0))
  {
    hide Step, Complete, At, Tokenizes, AfterText, LastOpen, IsSpaceByte;
    end := s;
    var token := tokens[0];
    var next := Literals(tokens[1..]) + rest;
    assert Literals(tokens) + rest == token.Literal() + next;
    TokenizesRest(tokens, rest);
    OpenStep(src, s, token, next);
    CompleteStep(src, s);
    if Step(src, s).Done? {
      var after := Step(src, s).value;
      AtNext(src, s, after, token.Literal(), next);
      PieceText(t);
      SealGrows(s.segments);
      PushGrows(s.segments, token.Literal());
      assert Stuck(after, t, |tokens| - 1);
      end := StuckAll(src, after, tokens[1..], t, rest);
    }
  }

  lemma PieceText(t: seq<byte>)
    ensures AllText([Piece(t, [])]) == t
  {
    assert [Piece(t, [])][..0] == [];
  }
}
