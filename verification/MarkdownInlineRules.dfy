// What one turn of the inline scanner does, said over the bytes around it, and
// what becomes of delimiters that are never closed
// (crates/xiaomu-codec-markdown/src/inline.rs:118-380).
module MarkdownInlineRules {
  import opened Wrappers
  import opened Numbers
  import opened Text
  import opened Marks
  import opened MarkdownSyntax
  import opened MarkdownInline
  import opened MarkdownLaws
  import opened MarkdownRuns
  import opened MarkdownRoundTrip
  import opened MarkdownEmphasis
  import opened MarkdownRunLaws
  import opened MarkdownCode

  // ASCII white space: tab, line feed, form feed, carriage return, space.
  predicate IsAsciiSpace(b: byte) {
    b in [0x09, 0x0A, 0x0C, 0x0D, 0x20]
  }

  lemma SpaceBytes(b: byte)
    ensures IsSpaceByte(b) <==> IsAsciiSpace(b)
  {}

  // The turn costs `work` and leads to `next`, or the budget stops it.
  predicate Turns(r: Scanned<Scan>, s: Scan, work: nat, next: Scan) {
    r == if s.work + work > MAX_WORK then Refused(WorkLimit) else Done(next.(work := s.work + work))
  }

  // ----- code spans

  // Exactly `len` backticks stand at `j`, none before them from `i` on, none after.
  predicate RunAt(text: seq<byte>, i: nat, j: nat, len: nat) {
    && i <= j && j + len <= |text| && AllTicks(text[j..j + len])
    && (j + len == |text| || text[j + len] != BACKTICK) && (j == i || text[j - 1] != BACKTICK)
  }

  predicate NoRunBefore(text: seq<byte>, i: nat, j: nat, len: nat) {
    forall k :: i <= k < j ==> !RunAt(text, i, k, len)
  }

  lemma {:induction false} RunAtFirst(text: seq<byte>, i: nat, len: nat)
    requires i < |text| && text[i] == BACKTICK && len > 0
    ensures RunAt(text, i, i, len) <==> TickRun(text, i) == len
    ensures forall j :: i < j < i + TickRun(text, i) ==> !RunAt(text, i, j, len)
    ensures forall j :: i + TickRun(text, i) <= j ==>
      (RunAt(text, i, j, len) <==> RunAt(text, i + TickRun(text, i), j, len))
  {
    hide TickRun;
    var n := TickRun(text, i);
    TickRunTicks(text, i);
    TickRunEnds(text, i);
    TicksAt(text, i, n);
    if RunAt(text, i, i, len) {
      TickRunIs(text, i, len);
    }
    var end := i + n;
    if end < |text| && RunAt(text, end, end, len) {
      assert text[end..end + len][0] == text[end];
    }
  }

  lemma {:induction false} TickRunEnds(text: seq<byte>, i: nat)
    requires i < |text| && text[i] == BACKTICK
    ensures TickRun(text, i) > 0
    ensures i + TickRun(text, i) == |text| || text[i + TickRun(text, i)] != BACKTICK
    decreases |text| - i
  {
    if i + 1 < |text| && text[i + 1] == BACKTICK {
      TickRunEnds(text, i + 1);
    }
  }

  lemma TicksAt(text: seq<byte>, i: nat, n: nat)
    requires i + n <= |text| && AllTicks(text[i..i + n])
    ensures forall k :: i <= k < i + n ==> text[k] == BACKTICK
  {
    forall k | i <= k < i + n
      ensures text[k] == BACKTICK
    {
      assert text[i..i + n][k - i] == text[k];
    }
  }

  lemma RunAtNext(text: seq<byte>, i: nat, len: nat)
    requires i < |text| && text[i] != BACKTICK && len > 0
    ensures !RunAt(text, i, i, len)
    ensures forall j :: i < j ==> (RunAt(text, i, j, len) <==> RunAt(text, i + 1, j, len))
  {
    if i + len <= |text| {
      assert text[i..i + len][0] == text[i];
    }
  }

  // The search finds the first run of exactly that length.
  lemma {:induction false} FindRunIsFirst(text: seq<byte>, i: nat, len: nat)
    requires i <= |text| && len > 0
    ensures var r := FindRun(text, i, len);
      if r.None? then forall j :: i <= j ==> !RunAt(text, i, j, len)
      else RunAt(text, i, r.value, len) && NoRunBefore(text, i, r.value, len)
    decreases |text| - i
  {
    hide TickRun, AllTicks;
    if i < |text| {
      var k := i + if text[i] == BACKTICK then TickRun(text, i) else 1;
      if text[i] == BACKTICK {
        TickRunEnds(text, i);
        RunAtFirst(text, i, len);
      } else {
        RunAtNext(text, i, len);
      }
      if text[i] != BACKTICK || TickRun(text, i) != len {
        FindRunIsFirst(text, k, len);
      }
    }
  }

  // A code span's text: one space goes from each end when both have one and
  // something else stands between.
  function CodeText(content: seq<byte>): seq<byte> {
    if |content| >= 2 && content[0] == 0x20 && content[|content| - 1] == 0x20
       && exists i :: 0 <= i < |content| && content[i] != 0x20
    then content[1..|content| - 1] else content
  }

  lemma CodeTextIs(content: seq<byte>)
    ensures Trimmed(content) == CodeText(content)
  {
    assert forall i :: 0 <= i < |content| ==> content[i] in content;
  }

  // A run of backticks with a later run of the same length: the code between.
  lemma {:induction false} CodeSpanRule(src: Source, s: Scan, len: nat, close: nat)
    requires s.pos < |src.text| && len > 0 && RunAt(src.text, s.pos, s.pos, len)
    requires RunAt(src.text, s.pos + len, close, len) && NoRunBefore(src.text, s.pos + len, close, len)
    ensures Turns(Step(src, s), s, 1 + (|src.text| - s.pos), s.(pos := close + len,
                  segments := Seal(Seal(s.segments) + [Piece(CodeText(src.text[s.pos + len..close]), [CodeMark])])))
  {
    hide TickRun, FindRun, Seal, PushStr, Trimmed, CodeText, RunAt, NoRunBefore;
    var text := src.text;
    RunStarts(text, s.pos, len);
    StepIsCode(src, s);
    FindRunIsFirst(text, s.pos + len, len);
    SameFirst(text, s.pos + len, FindRun(text, s.pos + len, len), close, len);
    CodeTextIs(text[s.pos + len..close]);
  }

  // Without one the backticks are text.
  lemma {:induction false} LoneBackticksRule(src: Source, s: Scan, len: nat)
    requires s.pos < |src.text| && len > 0 && RunAt(src.text, s.pos, s.pos, len)
    requires NoRunBefore(src.text, s.pos + len, |src.text|, len)
    ensures s.pos + len <= |src.text|
    ensures Turns(Step(src, s), s, 1 + (|src.text| - s.pos), s.(pos := s.pos + len,
                  segments := PushStr(Seal(s.segments), src.text[s.pos..s.pos + len])))
  {
    hide TickRun, FindRun, Seal, PushStr, Trimmed, CodeText, RunAt, NoRunBefore;
    RunStarts(src.text, s.pos, len);
    StepIsCode(src, s);
    FindRunIsFirst(src.text, s.pos + len, len);
    NoneFound(src.text, s.pos + len, FindRun(src.text, s.pos + len, len), len);
  }

  lemma NoneFound(text: seq<byte>, i: nat, found: Option<nat>, len: nat)
    requires NoRunBefore(text, i, |text|, len) && len > 0
    requires found.Some? ==> RunAt(text, i, found.value, len)
    ensures found == None
  {}

  lemma RunStarts(text: seq<byte>, i: nat, len: nat)
    requires i < |text| && len > 0 && RunAt(text, i, i, len)
    ensures text[i] == BACKTICK && TickRun(text, i) == len && i + len <= |text|
  {
    assert text[i..i + len][0] == text[i];
    RunAtFirst(text, i, len);
  }

  lemma SameFirst(text: seq<byte>, i: nat, found: Option<nat>, close: nat, len: nat)
    requires RunAt(text, i, close, len) && NoRunBefore(text, i, close, len)
    requires if found.None? then forall j :: i <= j ==> !RunAt(text, i, j, len)
             else RunAt(text, i, found.value, len) && NoRunBefore(text, i, found.value, len)
    ensures found == Some(close) && close + len <= |text| && i <= close
  {}

  // ----- emphasis

  // Which delimiter stands at a position; one tilde is none.
  predicate TokenIs(text: seq<byte>, pos: nat, token: EmphToken) {
    && pos < |text|
    && var twice := pos + 1 < |text| && text[pos + 1] == text[pos];
      match token
      case BoldToken => text[pos] == 0x2A && twice
      case ItalicToken => text[pos] == 0x2A && !twice
      case StrikeToken => text[pos] == 0x7E && twice
  }

  function Width(token: EmphToken): nat {
    if token == ItalicToken then 1 else 2
  }

  lemma {:induction false} TokenFound(text: seq<byte>, pos: nat, token: EmphToken)
    requires TokenIs(text, pos, token)
    ensures text[pos] == STAR || text[pos] == TILDE
    ensures TokenAt(text, pos) == Some(token) && |token.Literal()| == Width(token)
    ensures pos + Width(token) <= |text| && text[pos..pos + Width(token)] == token.Literal()
  {}

  // The delimiter may close the `index`-th open one.
  predicate ClosesOpen(src: Source, s: Scan, token: EmphToken, index: nat) {
    && 0 < s.pos <= |src.text| && !IsAsciiSpace(src.text[s.pos - 1])
    && index < |s.opens| && s.opens[index].token == token
    && forall i :: index < i < |s.opens| ==> s.opens[i].token != token
  }

  predicate ClosesNone(src: Source, s: Scan, token: EmphToken) {
    || s.pos == 0 || s.pos > |src.text| || IsAsciiSpace(src.text[s.pos - 1])
    || forall i :: 0 <= i < |s.opens| ==> s.opens[i].token != token
  }

  lemma {:induction false} LastOpenIs(opens: seq<EmphOpen>, token: EmphToken, index: nat)
    requires index < |opens| && opens[index].token == token
    requires forall i :: index < i < |opens| ==> opens[i].token != token
    ensures LastOpen(opens, token) == Some(index)
  {
    var n := |opens| - 1;
    if index < n {
      LastOpenIs(opens[..n], token, index);
    }
  }

  function MarkOf(token: EmphToken): Mark {
    match token
    case BoldToken => BoldMark
    case ItalicToken => ItalicMark
    case StrikeToken => StrikeMark
  }

  // The latest open delimiter of the kind closes: what came since is marked.
  lemma {:induction false} CloseRule(src: Source, s: Scan, token: EmphToken, index: nat)
    requires TokenIs(src.text, s.pos, token) && ClosesOpen(src, s, token, index)
    ensures var segments := Seal(s.segments); var from, end := s.opens[index].segStart, |segments| - 1;
      Turns(Step(src, s), s, 1 + (|s.opens| + |s.segments|) + Less(end, from) * src.markSize,
            s.(segments := MarkRange(segments, from, end, MarkOf(token)),
               opens := s.opens[..index] + s.opens[index + 1..], pos := s.pos + Width(token)))
  {
    hide Seal, MarkRange, Less, TokenAt, TokenIs, LastOpen, EmphOpenOrText, IsSpaceByte, IsAsciiSpace, Step;
    TokenFound(src.text, s.pos, token);
    SpaceBytes(src.text[s.pos - 1]);
    LastOpenIs(s.opens, token, index);
    StepIsEmphasis(src, s);
  }

  // What closes nothing opens before a visible byte, and is text elsewhere.
  lemma {:induction false} OpenRule(src: Source, s: Scan, token: EmphToken)
    requires TokenIs(src.text, s.pos, token) && ClosesNone(src, s, token)
    ensures var next := s.pos + Width(token); var segments := Seal(s.segments);
      Turns(Step(src, s), s, 1 + (|s.opens| + |s.segments|),
            if next < |src.text| && !IsAsciiSpace(src.text[next])
            then s.(segments := segments, opens := s.opens + [EmphOpen(token, |segments| - 1)], pos := next)
            else s.(segments := PushStr(s.segments, src.text[s.pos..next]), pos := next))
  {
    hide Seal, PushStr, TokenAt, LastOpen, TokenIs, EmphClose;
    var next := s.pos + Width(token);
    TokenFound(src.text, s.pos, token);
    if s.pos > 0 {
      SpaceBytes(src.text[s.pos - 1]);
    }
    if next < |src.text| {
      SpaceBytes(src.text[next]);
    }
    LastOpenInRange(s.opens, token);
    StepIsEmphasis(src, s);
  }

  lemma {:induction false} LoneTildeRule(src: Source, s: Scan)
    requires s.pos < |src.text| && src.text[s.pos] == 0x7E
    requires s.pos + 1 == |src.text| || src.text[s.pos + 1] != 0x7E
    ensures Turns(Step(src, s), s, 1 + (|s.opens| + |s.segments|),
                  s.(segments := PushStr(s.segments, [0x7E]), pos := s.pos + 1))
  {
    hide PushStr;
    StepIsEmphasis(src, s);
  }

  // ----- brackets

  lemma {:induction false} BracketRule(src: Source, s: Scan)
    requires s.pos < |src.text|
    ensures src.text[s.pos] == 0x5B ==>
      Turns(Step(src, s), s, 1,
            s.(segments := Seal(s.segments), links := s.links + [|Seal(s.segments)| - 1], pos := s.pos + 1))
    ensures src.text[s.pos] == 0x21 && s.pos + 1 < |src.text| && src.text[s.pos + 1] == 0x5B ==>
      Step(src, s) == Refused(if s.work + 1 > MAX_WORK then WorkLimit else InlineImage)
    ensures src.text[s.pos] == 0x5D && s.links == [] ==>
      Turns(Step(src, s), s, 1, s.(segments := PushStr(s.segments, [0x5D]), pos := s.pos + 1))
    ensures src.text[s.pos] == 0x5D && s.links != [] && (s.pos + 1 == |src.text| || src.text[s.pos + 1] != 0x28) ==>
      Turns(Step(src, s), s, 1, s.(segments := PushStr(s.segments, [0x5D]), pos := s.pos + 1,
                                   links := s.links[..|s.links| - 1]))
  {
    hide Seal, PushStr, CodeSpan, Emphasis, AutoLink, ParseDestination, LinkMarks;
    if s.pos + 1 < |src.text| {
      assert src.text[s.pos + 1..][0] == src.text[s.pos + 1];
    }
  }

  // What lies since the innermost open bracket has text.
  predicate HasText(segments: seq<Piece>, from: nat) {
    exists i :: from <= i < |segments| && segments[i].text != []
  }

  // A closing bracket right before an opening parenthesis, with a bracket open.
  predicate BeforeTarget(src: Source, s: Scan) {
    s.pos + 1 < |src.text| && src.text[s.pos] == 0x5D && src.text[s.pos + 1] == 0x28 && s.links != []
  }

  // The work of looking for the target.
  function TargetWork(src: Source, s: Scan): nat
    requires s.pos + 1 < |src.text|
  {
    1 + (|src.text| - s.pos - 2 + |s.segments|)
  }

  lemma {:induction false} TargetStep(src: Source, s: Scan)
    requires BeforeTarget(src, s)
    ensures var target := ParseDestination(src.text[s.pos + 2..]); var read := s.work + TargetWork(src, s);
      Step(src, s)
      == if read > MAX_WORK then Refused(WorkLimit)
         else if target.None? then
           Done(s.(work := read, segments := PushStr(s.segments, [0x5D]), pos := s.pos + 1,
                   links := s.links[..|s.links| - 1]))
         else LinkMarks(src, s.(work := read), target.value.0, target.value.1, target.value.2)
  {
    hide Step, PushStr, ParseDestination, LinkMarks;
    var after := src.text[s.pos + 1..];
    assert after[0] == src.text[s.pos + 1] && after[1..] == src.text[s.pos + 2..];
    StepIsLink(src, s);
  }

  // With no target behind it the bracket is text, and the open one is given up.
  lemma {:induction false} NoTargetRule(src: Source, s: Scan)
    requires BeforeTarget(src, s) && ParseDestination(src.text[s.pos + 2..]).None?
    ensures Turns(Step(src, s), s, TargetWork(src, s),
                  s.(segments := PushStr(s.segments, [0x5D]), pos := s.pos + 1, links := s.links[..|s.links| - 1]))
  {
    hide Step, PushStr, ParseDestination, LinkMarks;
    TargetStep(src, s);
  }

  // The work of marking what lies since the innermost open bracket.
  function LinkWork(src: Source, s: Scan, url: seq<byte>, title: Option<seq<byte>>): nat
    requires s.links != []
  {
    Less(|Seal(s.segments)| - 1, s.links[|s.links| - 1])
    * (|url| + (if title.Some? then |title.value| else 0) + src.markSize)
  }

  lemma TurnsAfter(r: Scanned<Scan>, s: Scan, first: nat, second: nat, next: Scan)
    requires s.work + first <= MAX_WORK && Turns(r, s.(work := s.work + first), second, next)
    ensures Turns(r, s, first + second, next)
  {}

  // With one the text since the innermost open bracket is linked; there must be some.
  lemma {:induction false} LinkRule(src: Source, s: Scan, url: seq<byte>, title: Option<seq<byte>>, consumed: nat)
    requires BeforeTarget(src, s) && ParseDestination(src.text[s.pos + 2..]) == Some((url, title, consumed))
    requires s.work + TargetWork(src, s) <= MAX_WORK
    ensures var segments, from := Seal(s.segments), s.links[|s.links| - 1];
      if !HasText(segments[..|segments| - 1], from) then Step(src, s) == Refused(EmptyLinkText)
      else
        Turns(Step(src, s), s, TargetWork(src, s) + LinkWork(src, s, url, title),
              s.(segments := MarkRange(segments, from, |segments| - 1, LinkMark(url, title)),
                 pos := s.pos + 2 + consumed, links := s.links[..|s.links| - 1]))
  {
    hide Step, Seal, ParseDestination, MarkRange, NoText, HasText, LinkMarks, LinkWork, Turns;
    TargetStep(src, s);
    var segments, from := Seal(s.segments), s.links[|s.links| - 1];
    TextOrNot(segments, from);
    var read := s.(work := s.work + TargetWork(src, s));
    MarksWhenTexted(src, read, url, title, consumed);
    if HasText(segments[..|segments| - 1], from) {
      var next := s.(segments := MarkRange(segments, from, |segments| - 1, LinkMark(url, title)),
                     pos := s.pos + 2 + consumed, links := s.links[..|s.links| - 1]);
      SameLinkWork(src, s, read, url, title);
      SameTurn(LinkMarks(src, read, url, title, consumed), read, LinkWork(src, s, url, title),
               next.(work := read.work), next);
      TurnsAfter(LinkMarks(src, read, url, title, consumed), s, TargetWork(src, s), LinkWork(src, s, url, title), next);
    }
  }

  lemma SameLinkWork(src: Source, a: Scan, b: Scan, url: seq<byte>, title: Option<seq<byte>>)
    requires a.segments == b.segments && a.links == b.links && a.links != []
    ensures LinkWork(src, a, url, title) == LinkWork(src, b, url, title)
  {}

  // Where a turn leads does not depend on the work its target records.
  lemma SameTurn(r: Scanned<Scan>, s: Scan, work: nat, a: Scan, b: Scan)
    requires Turns(r, s, work, a) && a.(work := 0) == b.(work := 0)
    ensures Turns(r, s, work, b)
  {}

  // No work left to look for the target.
  lemma {:induction false} TargetBudget(src: Source, s: Scan)
    requires BeforeTarget(src, s) && s.work + TargetWork(src, s) > MAX_WORK
    ensures Step(src, s) == Refused(WorkLimit)
  {
    hide Step, Seal, ParseDestination, LinkMarks;
    TargetStep(src, s);
  }

  lemma StepIsLink(src: Source, s: Scan)
    requires s.pos < |src.text| && src.text[s.pos] == CLOSE_BRACKET
    ensures Step(src, s) == if s.work + 1 > MAX_WORK then Refused(WorkLimit) else LinkClose(src, s.(work := s.work + 1))
  {
    hide LinkClose;
  }

  lemma TextOrNot(segments: seq<Piece>, from: nat)
    requires segments != []
    ensures HasText(segments[..|segments| - 1], from) <==> !NoText(segments, from, |segments| - 1)
  {}

  lemma {:induction false} MarksWhenTexted(src: Source, s: Scan, url: seq<byte>, title: Option<seq<byte>>,
                                           consumed: nat)
    requires s.links != [] && s.work <= MAX_WORK
    ensures var segments, from := Seal(s.segments), s.links[|s.links| - 1];
      if NoText(segments, from, |segments| - 1) then
        LinkMarks(src, s, url, title, consumed) == Refused(EmptyLinkText)
      else
        Turns(LinkMarks(src, s, url, title, consumed), s, LinkWork(src, s, url, title),
              s.(segments := MarkRange(segments, from, |segments| - 1, LinkMark(url, title)),
                 pos := s.pos + 2 + consumed, links := s.links[..|s.links| - 1]))
  {
    hide Seal, MarkRange, NoText;
  }

  // ----- autolinks

  // A scheme before the first colon: a letter, then letters, digits, `+`, `.`, `-`.
  predicate IsScheme(scheme: seq<byte>) {
    && scheme != [] && IsLetter(scheme[0])
    && forall b :: b in scheme ==> IsLetter(b) || 0x30 <= b <= 0x39 || b in [0x2B, 0x2E, 0x2D]
  }

  predicate IsLetter(b: byte) {
    0x41 <= b <= 0x5A || 0x61 <= b <= 0x7A
  }

  predicate IsUri(uri: seq<byte>) {
    exists colon :: 0 <= colon < |uri| && uri[colon] == 0x3A && IsScheme(uri[..colon])
  }

  lemma {:induction false} IndexIsFirst(text: seq<byte>, i: nat, b: byte)
    requires i <= |text|
    ensures forall k :: i <= k < IndexOf(text, i, b) ==> text[k] != b
    decreases |text| - i
  {
    if i < |text| && text[i] != b {
      IndexIsFirst(text, i + 1, b);
    }
  }

  // A scheme holds no colon, so only the first colon can end one.
  lemma {:induction false} SchemesAreUris(uri: seq<byte>)
    ensures HasScheme(uri) <==> IsUri(uri)
  {
    var colon := IndexOf(uri, 0, 0x3A);
    IndexIsFirst(uri, 0, 0x3A);
    if HasScheme(uri) {
      assert IsScheme(uri[..colon]);
    }
    if IsUri(uri) {
      var k :| 0 <= k < |uri| && uri[k] == 0x3A && IsScheme(uri[..k]);
      assert forall i :: 0 <= i < k ==> uri[..k][i] in uri[..k];
      assert k == colon;
    }
  }

  lemma StepIsAutoLink(src: Source, s: Scan)
    requires s.pos < |src.text| && src.text[s.pos] == OPEN_ANGLE
    ensures Step(src, s)
      == if s.work + 1 > MAX_WORK then Refused(WorkLimit) else AutoLink(src.text, s.(work := s.work + 1))
  {
    hide AutoLink;
  }

  // An angle bracket up to the first closing one is a link when a scheme stands
  // inside, and text otherwise.
  lemma {:induction false} AutoLinkRule(src: Source, s: Scan, close: nat)
    requires s.pos < close <= |src.text| && src.text[s.pos] == 0x3C
    requires forall k :: s.pos < k < close ==> src.text[k] != 0x3E
    requires close < |src.text| ==> src.text[close] == 0x3E
    ensures var uri := src.text[s.pos + 1..close];
      Turns(Step(src, s), s, 1 + (|src.text| - s.pos),
            if close < |src.text| && IsUri(uri)
            then s.(pos := close + 1, segments := Seal(Seal(s.segments) + [Piece(uri, [LinkMark(uri, None)])]))
            else s.(pos := s.pos + 1, segments := PushStr(s.segments, [0x3C])))
  {
    hide Seal, PushStr, IndexOf, HasScheme, IsUri;
    IndexIsFirst(src.text, s.pos + 1, CLOSE_ANGLE);
    StepIsAutoLink(src, s);
    SchemesAreUris(src.text[s.pos + 1..close]);
  }

  // ----- everything else

  lemma {:induction false} OtherRule(src: Source, s: Scan)
    requires s.pos < |src.text|
    ensures var b := src.text[s.pos];
      && (b == 0x5C && s.pos + 1 < |src.text| && IsPunctuation(src.text[s.pos + 1]) ==>
            Turns(Step(src, s), s, 1, s.(segments := PushStr(s.segments, [src.text[s.pos + 1]]), pos := s.pos + 2)))
      && (b == 0x5C && !(s.pos + 1 < |src.text| && IsPunctuation(src.text[s.pos + 1])) ==>
            Turns(Step(src, s), s, 1, s.(segments := PushStr(s.segments, [0x5C]), pos := s.pos + 1)))
      && (b !in [0x5C, 0x60, 0x2A, 0x7E, 0x5B, 0x5D, 0x21, 0x3C] && ScalarLen(src.text[s.pos..]) > 0 ==>
            var n := ScalarLen(src.text[s.pos..]);
            Turns(Step(src, s), s, 1,
                  s.(segments := PushStr(s.segments, src.text[s.pos..s.pos + n]), pos := s.pos + n)))
      && (b == 0x21 && !(s.pos + 1 < |src.text| && src.text[s.pos + 1] == 0x5B) ==>
            Turns(Step(src, s), s, 1, s.(segments := PushStr(s.segments, [0x21]), pos := s.pos + 1)))
  {
    hide PushStr, CodeSpan, Emphasis, AutoLink, LinkClose, Seal;
    if src.text[s.pos] == 0x21 {
      assert src.text[s.pos..][0] == 0x21;
      assert src.text[s.pos..s.pos + 1] == [0x21];
    }
  }
}
