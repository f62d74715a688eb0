// The scanner object, each method proved to do what its step says, never
// cutting a character and never indexing outside its segments
// (crates/xiaomu-codec-markdown/src/inline.rs).
module MarkdownScanner {
  import opened Wrappers
  import opened Numbers
  import opened Text
  import opened Marks
  import opened MarkdownSyntax
  import opened MarkdownInline
  import opened MarkdownLaws
  import opened MarkdownCode

  // ----- positions and indices stay legal

  // Every remembered segment exists.
  ghost predicate Coherent(s: Scan) {
    && (forall i :: 0 <= i < |s.opens| ==> s.opens[i].segStart < |s.segments|)
    && (forall i :: 0 <= i < |s.links| ==> s.links[i] < |s.segments|)
  }

  lemma {:induction false} StepCoherent(src: Source, s: Scan)
    requires s.pos < |src.text| && Coherent(s)
    ensures Step(src, s).Done? ==> Coherent(Step(src, s).value)
  {
    hide Seal, PushStr, MarkRange, CharLen, ParseDestination, LastOpen, TickRun, FindRun, Trimmed, IndexOf, HasScheme;
    hide NoText, TokenAt,
      IsSpaceByte, Grows;
    StepGrows(src, s);
    if Step(src, s).Done? {
      GrowsLonger(s.segments, Step(src, s).value.segments);
    }
    if src.text[s.pos] == BACKTICK {
      TickRunStarts(src.text, s.pos);
    }
  }

  lemma GrowsLonger(a: seq<Piece>, b: seq<Piece>)
    requires Grows(a, b)
    ensures |a| <= |b|
  {}

  // What a read target consumes ends with its closing parenthesis.
  lemma {:induction false} TargetEnds(text: seq<byte>)
    ensures var r := ParseDestination(text); r.Some? ==> 0 < r.value.2 <= |text| && text[r.value.2 - 1] == CLOSE_PAREN
  {
    hide ReadTitle;
    var d := ReadDestination(text);
    if d.Some? {
      TitleEnds(text[d.value.1..]);
    }
  }

  lemma {:induction false} TitleEnds(s: seq<byte>)
    ensures var r := ReadTitle(s); r.Some? ==> 0 < r.value.1 <= |s| && s[r.value.1 - 1] == CLOSE_PAREN
  {
    hide ReadQuoted;
    var k := SkipBlanks(s);
    if s[k..] != [] && s[k] == QUOTE {
      QuotedEnds(s[k + 1..], k + 1);
    }
  }

  lemma {:induction false} QuotedEnds(s: seq<byte>, at: nat)
    ensures var r := ReadQuoted(s, at);
      r.Some? ==> at < r.value.1 <= at + |s| && s[r.value.1 - at - 1] == CLOSE_PAREN
  {
    hide Unescape, SkipTo, SkipBlanks;
  }

  lemma {:induction false} StepOnBoundary(src: Source, s: Scan)
    requires ValidUtf8(src.text) && IsBoundary(src.text, s.pos) && s.pos < |src.text|
    ensures Step(src, s).Done? ==> IsBoundary(src.text, Step(src, s).value.pos)
    ensures CharLen(src.text, s.pos) == ScalarLen(src.text[s.pos..])
      && IsBoundary(src.text, s.pos + CharLen(src.text, s.pos))
  {
    hide Seal, PushStr, MarkRange, ParseDestination, LastOpen, TickRun, FindRun, Trimmed, IndexOf, HasScheme, NoText;
    hide ValidUtf8,
      ScalarLen, CharLen, CodeSpan, Emphasis, LinkClose, AutoLink;
    var text, pos := src.text, s.pos;
    CharOnBoundary(text, pos);
    if text[pos] < 0x80 {
      AfterAscii(text, pos);
    }
    if pos + 1 < |text| && text[pos + 1] < 0x80 {
      AfterAscii(text, pos + 1);
    }
    var c := s.(work := s.work + 1);
    if text[pos] == BACKTICK {
      CodeOnBoundary(text, c);
    } else if text[pos] == STAR || text[pos] == TILDE {
      EmphasisOnBoundary(src, c);
    } else if text[pos] == CLOSE_BRACKET {
      LinkOnBoundary(src, c);
    } else if text[pos] == OPEN_ANGLE {
      AutoLinkOnBoundary(text, c);
    }
  }

  lemma {:induction false} CharOnBoundary(text: seq<byte>, pos: nat)
    requires ValidUtf8(text) && IsBoundary(text, pos) && pos < |text|
    ensures CharLen(text, pos) == ScalarLen(text[pos..]) && IsBoundary(text, pos + CharLen(text, pos))
  {
    hide ScalarLen;
    CutValid(text, pos);
    var rest := text[pos..];
    var n := ScalarLen(rest);
    assert ValidUtf8(rest[n..]) && n > 0;
    if pos + n < |text| {
      FirstIsLead(rest[n..]);
      assert rest[n..][0] == text[pos + n];
    }
  }

  lemma {:induction false} CodeOnBoundary(text: seq<byte>, s: Scan)
    requires ValidUtf8(text) && s.pos < |text| && text[s.pos] == BACKTICK
    ensures CodeSpan(text, s).Done? ==> IsBoundary(text, CodeSpan(text, s).value.pos)
  {
    hide Seal, PushStr, TickRun, FindRun, Trimmed, ValidUtf8, IsBoundary;
    var len := TickRun(text, s.pos);
    TickRunStarts(text, s.pos);
    TicksOnBoundary(text, s.pos);
    var found := FindRun(text, s.pos + len, len);
    if found.Some? {
      TicksOnBoundary(text, found.value);
    }
  }

  lemma {:induction false} TicksOnBoundary(text: seq<byte>, i: nat)
    requires ValidUtf8(text) && i <= |text| && TickRun(text, i) > 0
    ensures IsBoundary(text, i + TickRun(text, i))
  {
    hide ValidUtf8, TickRun;
    TickRunTicks(text, i);
    var n := TickRun(text, i);
    assert text[i..i + n][n - 1] == text[i + n - 1];
    AfterAscii(text, i + n - 1);
  }

  lemma {:induction false} EmphasisOnBoundary(src: Source, s: Scan)
    requires ValidUtf8(src.text) && s.pos < |src.text| && (src.text[s.pos] == STAR || src.text[s.pos] == TILDE)
    ensures Emphasis(src, s).Done? ==> IsBoundary(src.text, Emphasis(src, s).value.pos)
  {
    hide Seal, PushStr, MarkRange, LastOpen, ValidUtf8, IsBoundary, IsSpaceByte;
    AfterAscii(src.text, s.pos);
    if s.pos + 1 < |src.text| && src.text[s.pos + 1] == src.text[s.pos] {
      AfterAscii(src.text, s.pos + 1);
    }
  }

  lemma {:induction false} LinkOnBoundary(src: Source, s: Scan)
    requires ValidUtf8(src.text) && s.pos < |src.text| && src.text[s.pos] == CLOSE_BRACKET
    ensures LinkClose(src, s).Done? ==> IsBoundary(src.text, LinkClose(src, s).value.pos)
  {
    hide Seal, PushStr, MarkRange, ParseDestination, NoText, ValidUtf8, IsBoundary;
    AfterAscii(src.text, s.pos);
    var after := src.text[s.pos + 1..];
    if after != [] {
      var target := ParseDestination(after[1..]);
      TargetEnds(after[1..]);
      if target.Some? {
        assert after[1..][target.value.2 - 1] == src.text[s.pos + 1 + target.value.2];
        AfterAscii(src.text, s.pos + 1 + target.value.2);
      }
    }
  }

  lemma {:induction false} AutoLinkOnBoundary(text: seq<byte>, s: Scan)
    requires ValidUtf8(text) && s.pos < |text| && text[s.pos] == OPEN_ANGLE
    ensures AutoLink(text, s).Done? ==> IsBoundary(text, AutoLink(text, s).value.pos)
  {
    hide Seal, PushStr, HasScheme, ValidUtf8, IsBoundary;
    AfterAscii(text, s.pos);
    var close := IndexOf(text, s.pos + 1, CLOSE_ANGLE);
    if close < |text| {
      AfterAscii(text, close);
    }
  }

  // ----- the scanner

  // A method's outcome is its step's; after an error the state is dropped.
  ghost predicate Did(spec: Scanned<Scan>, r: Option<MarkdownError>, post: Scan) {
    match spec
    case Done(v) => r == None && post == v
    case Refused(error) => r == Some(error)
  }

  lemma TickRunNext(text: seq<byte>, i: nat)
    requires i <= |text|
    ensures i < |text| && text[i] == BACKTICK ==> TickRun(text, i) == 1 + TickRun(text, i + 1)
    ensures i == |text| || text[i] != BACKTICK ==> TickRun(text, i) == 0
  {}

  lemma FindRunNext(text: seq<byte>, i: nat, len: nat)
    requires i <= |text| && len > 0
    ensures i == |text| ==> FindRun(text, i, len) == None
    ensures i < |text| && text[i] != BACKTICK ==> FindRun(text, i, len) == FindRun(text, i + 1, len)
    ensures i < |text| && text[i] == BACKTICK && TickRun(text, i) == len ==> FindRun(text, i, len) == Some(i)
    ensures i < |text| && text[i] == BACKTICK && TickRun(text, i) != len ==>
      TickRun(text, i) > 0 && FindRun(text, i, len) == FindRun(text, i + TickRun(text, i), len)
  {}

  class InlineScanner {
    const src: seq<byte>
    const markSize: nat
    var pos: nat
    var work: nat
    var segments: seq<Piece>
    var opens: seq<EmphOpen>
    var links: seq<nat>

    constructor (text: Str, markSize: nat, work: nat)
      ensures src == text && this.markSize == markSize && State() == Scan(0, work, [], [], [])
    {
      src, this.markSize := text, markSize;
      pos, this.work, segments, opens, links := 0, work, [], [], [];
    }

    ghost function State(): Scan
      reads this
    {
      Scan(pos, work, segments, opens, links)
    }

    ghost function Text(): Source {
      Source(src, markSize)
    }

    ghost predicate Valid()
      reads this
    {
      ValidUtf8(src) && IsBoundary(src, pos) && Coherent(State())
    }

    // `Budget::work`.
    method Spend(amount: nat) returns (r: Option<MarkdownError>)
      modifies `work
      ensures Did(Charge(old(State()), amount), r, State())
    {
      work := work + amount;
      r := if work > MAX_WORK then Some(WorkLimit) else None;
    }

    // `seal`.
    method SealSegment()
      modifies `segments
      ensures segments == Seal(old(segments))
    {
      if |segments| == 0 || segments[|segments| - 1].text != [] {
        segments := segments + [EMPTY_PIECE];
      }
    }

    // `push_str`.
    method PushText(text: seq<byte>)
      modifies `segments
      ensures segments == PushStr(old(segments), text)
    {
      if text == [] {
        return;
      }
      if |segments| > 0 {
        var n := |segments| - 1;
        segments := segments[n := segments[n].(text := segments[n].text + text)];
        return;
      }
      segments := [Piece(text, [])];
    }

    method CountTicks(start: nat) returns (n: nat)
      requires start <= |src|
      ensures n == TickRun(src, start)
    {
      hide TickRun;
      n := 0;
      TickRunNext(src, start);
      while start + n < |src| && src[start + n] == BACKTICK
        invariant start + n <= |src| && n + TickRun(src, start + n) == TickRun(src, start)
      {
        TickRunNext(src, start + n);
        n := n + 1;
      }
      TickRunNext(src, start + n);
    }

    // The loop of `code_span` that looks for the closing fence.
    method SearchRun(start: nat, len: nat) returns (found: Option<nat>)
      requires start <= |src| && len > 0
      ensures found == FindRun(src, start, len)
    {
      hide TickRun, FindRun;
      var index := start;
      while index < |src|
        invariant index <= |src| && FindRun(src, index, len) == FindRun(src, start, len)
      {
        FindRunNext(src, index, len);
        if src[index] == BACKTICK {
          var run := CountTicks(index);
          if run == len {
            return Some(index);
          }
          index := index + run;
          continue;
        }
        index := index + 1;
      }
      FindRunNext(src, index, len);
      found := None;
    }

    // `code_span`.
    method ScanCode() returns (r: Option<MarkdownError>)
      requires pos < |src| && src[pos] == BACKTICK
      modifies this
      ensures Did(CodeSpan(src, old(State())), r, State())
    {
      hide TickRun, FindRun, Seal, PushStr;
      r := Spend(|src| - pos);
      if r.Some? {
        return;
      }
      var len := CountTicks(pos);
      TickRunStarts(src, pos);
      SealSegment();
      var found := SearchRun(pos + len, len);
      if found.None? {
        PushText(src[pos..pos + len]);
        pos := pos + len;
        return;
      }
      var content := src[pos + len..found.value];
      if |content| >= 2 && content[0] == SPACE && content[|content| - 1] == SPACE && !AllSpaces(content) {
        content := content[1..|content| - 1];
      }
      segments := segments + [Piece(content, [CodeMark])];
      SealSegment();
      pos := found.value + len;
    }

    // The loop that marks segments [lo, hi).
    method MarkSegments(lo: nat, hi: nat, mark: Mark)
      requires lo <= hi <= |segments|
      modifies `segments
      ensures segments == MarkRange(old(segments), lo, hi, mark)
    {
      ghost var was := segments;
      for i := lo to hi
        invariant segments == MarkRange(was, lo, i, mark)
      {
        segments := segments[i := segments[i].(marks := segments[i].marks + [mark])];
      }
    }

    // `rposition`.
    method FindOpen(token: EmphToken) returns (found: Option<nat>)
      ensures found == LastOpen(opens, token)
    {
      var i := |opens|;
      assert opens[..i] == opens;
      while i > 0
        invariant i <= |opens| && LastOpen(opens, token) == LastOpen(opens[..i], token)
      {
        assert opens[..i][..i - 1] == opens[..i - 1];
        if opens[i - 1].token == token {
          return Some(i - 1);
        }
        i := i - 1;
      }
      found := None;
    }

    // `emphasis`.
    method ScanEmphasis() returns (r: Option<MarkdownError>)
      requires pos < |src| && (src[pos] == STAR || src[pos] == TILDE) && Coherent(State())
      modifies this
      ensures Did(Emphasis(Text(), old(State())), r, State())
    {
      hide Seal, PushStr, LastOpen, MarkRange, Coherent, TokenAt, IsSpaceByte, EmphClose, EmphOpenOrText;
      r := Spend(|opens| + |segments|);
      CoherentSame(old(State()), State());
      if r.Some? {
        return;
      }
      var token := TokenHere();
      if token.None? {
        PushText([TILDE]);
        pos := pos + 1;
        return;
      }
      var open := None;
      if pos > 0 && !IsSpaceByte(src[pos - 1]) {
        open := FindOpen(token.value);
      }
      if open.Some? {
        r := CloseEmphasis(token.value, open.value);
      } else {
        OpenOrPush(token.value);
      }
    }

    method TokenHere() returns (token: Option<EmphToken>)
      requires pos < |src| && (src[pos] == STAR || src[pos] == TILDE)
      ensures token == TokenAt(src, pos)
    {
      var twice := pos + 1 < |src| && src[pos + 1] == src[pos];
      if src[pos] == STAR {
        token := Some(if twice then BoldToken else ItalicToken);
      } else {
        token := if twice then Some(StrikeToken) else None;
      }
    }

    method OpenOrPush(token: EmphToken)
      modifies this
      ensures State() == EmphOpenOrText(src, old(State()), token)
    {
      hide Seal, PushStr, IsSpaceByte;
      var next := pos + |token.Literal()|;
      if next < |src| && !IsSpaceByte(src[next]) {
        SealSegment();
        opens := opens + [EmphOpen(token, |segments| - 1)];
      } else {
        PushText(token.Literal());
      }
      pos := next;
    }

    method CloseEmphasis(token: EmphToken, index: nat) returns (r: Option<MarkdownError>)
      requires index < |opens| && Coherent(State())
      modifies this
      ensures Did(EmphClose(Text(), old(State()), token, index), r, State())
    {
      hide Seal, MarkRange, Coherent, Less;
      var from := opens[index].segStart;
      CoherentIndex(State(), index, 0);
      SealedIndex(segments, from);
      opens := opens[..index] + opens[index + 1..];
      SealSegment();
      var end := |segments| - 1;
      r := Spend(Less(end, from) * markSize);
      if r.Some? {
        return;
      }
      MarkSegments(from, end, token.AsMark());
      pos := pos + |token.Literal()|;
    }

    // `link_close`.
    method CloseLink() returns (r: Option<MarkdownError>)
      requires Valid() && pos < |src| && src[pos] == CLOSE_BRACKET
      modifies this
      ensures Did(LinkClose(Text(), old(State())), r, State())
    {
      hide Seal, PushStr, MarkRange, ParseDestination, NoText, ValidUtf8, Coherent;
      if |links| == 0 {
        PushText([CLOSE_BRACKET]);
        pos := pos + 1;
        return None;
      }
      var rest := src[pos + 1..];
      if |rest| == 0 || rest[0] != OPEN_PAREN {
        links := links[..|links| - 1];
        PushText([CLOSE_BRACKET]);
        pos := pos + 1;
        return None;
      }
      r := Spend(|rest| - 1 + |segments|);
      CoherentSame(old(State()), State());
      if r.Some? {
        return;
      }
      BetweenAscii(src, pos + 2, |src|);
      assert src[pos + 2..|src|] == rest[1..];
      var target := ReadTarget(rest[1..]);
      if target.None? {
        links := links[..|links| - 1];
        PushText([CLOSE_BRACKET]);
        pos := pos + 1;
      } else {
        r := MarkLink(target.value.0, target.value.1, target.value.2);
      }
    }

    // Whether segments [from, end) hold no text.
    method AllEmpty(from: nat, end: nat) returns (empty: bool)
      requires from <= end <= |segments|
      ensures empty <==> NoText(segments, from, end)
    {
      for i := from to end
        invariant NoText(segments, from, i)
      {
        if segments[i].text != [] {
          return false;
        }
      }
      empty := true;
    }

    method MarkLink(url: seq<byte>, title: Option<seq<byte>>, consumed: nat) returns (r: Option<MarkdownError>)
      requires links != [] && Coherent(State())
      modifies this
      ensures Did(LinkMarks(Text(), old(State()), url, title, consumed), r, State())
    {
      hide Seal, MarkRange, NoText, Coherent, Less;
      var from := links[|links| - 1];
      CoherentIndex(State(), 0, |links| - 1);
      SealedIndex(segments, from);
      SealSegment();
      var end := |segments| - 1;
      var empty := AllEmpty(from, end);
      if empty {
        return Some(EmptyLinkText);
      }
      var size := |url| + (if title.Some? then |title.value| else 0) + markSize;
      r := Spend(Less(end, from) * size);
      if r.Some? {
        return;
      }
      MarkSegments(from, end, LinkMark(url, title));
      links := links[..|links| - 1];
      pos := pos + 2 + consumed;
    }

    // `autolink`.
    method ScanAutoLink() returns (r: Option<MarkdownError>)
      requires pos < |src| && src[pos] == OPEN_ANGLE
      modifies this
      ensures Did(AutoLink(src, old(State())), r, State())
    {
      hide Seal, PushStr, IndexOf, HasScheme;
      r := Spend(|src| - pos);
      if r.Some? {
        return;
      }
      var close := FindByte(src, pos + 1, CLOSE_ANGLE);
      if close == |src| {
        PushText([OPEN_ANGLE]);
        pos := pos + 1;
        return;
      }
      var uri := src[pos + 1..close];
      if !HasScheme(uri) {
        PushText([OPEN_ANGLE]);
        pos := pos + 1;
        return;
      }
      SealSegment();
      segments := segments + [Piece(uri, [LinkMark(uri, None)])];
      SealSegment();
      pos := close + 1;
    }

    // One turn of the loop in `run`.
    method ScanOne() returns (r: Option<MarkdownError>)
      requires Valid() && pos < |src|
      modifies this
      ensures Did(Step(Text(), old(State())), r, State())
    {
      hide Seal, PushStr, CodeSpan, Emphasis, LinkClose, AutoLink, ValidUtf8, IsBoundary, Coherent;
      r := Spend(1);
      if r.Some? {
        return;
      }
      var b := src[pos];
      if b == BACKSLASH {
        if pos + 1 < |src| && IsPunctuation(src[pos + 1]) {
          PushText([src[pos + 1]]);
          pos := pos + 2;
        } else {
          PushText([BACKSLASH]);
          pos := pos + 1;
        }
      } else if b == BACKTICK {
        r := ScanCode();
      } else if b == STAR || b == TILDE {
        ChargedValid();
        r := ScanEmphasis();
      } else if b == OPEN_BRACKET {
        SealSegment();
        links := links + [|segments| - 1];
        pos := pos + 1;
      } else if b == CLOSE_BRACKET {
        ChargedValid();
        r := CloseLink();
      } else if b == BANG && pos + 1 < |src| && src[pos + 1] == OPEN_BRACKET {
        r := Some(InlineImage);
      } else if b == OPEN_ANGLE {
        r := ScanAutoLink();
      } else {
        var n := CharLen(src, pos);
        PushText(src[pos..pos + n]);
        pos := pos + n;
      }
    }

    // Spending work changes no position and no index.
    twostate lemma ChargedValid()
      requires old(Valid())
      requires pos == old(pos) && segments == old(segments) && opens == old(opens) && links == old(links)
      ensures Valid()
    {
      hide ValidUtf8, IsBoundary;
    }

    // `run`.
    method RunAll() returns (r: Option<MarkdownError>)
      requires Valid()
      modifies this
      ensures Did(Run(Text(), old(State())), r, State())
      ensures r.None? ==> Valid() && pos == |src|
    {
      hide Step, ValidUtf8, IsBoundary, Coherent;
      ghost var start := State();
      while pos < |src|
        invariant Valid() && Run(Text(), State()) == Run(Text(), start)
        decreases Less(|src|, pos)
      {
        ghost var before := State();
        StepAdvances(Text(), before);
        StepCoherent(Text(), before);
        StepOnBoundary(Text(), before);
        r := ScanOne();
        if r.Some? {
          return;
        }
      }
      BoundaryInside(src, pos);
      r := None;
    }

    // `finish`, and the runs it collects.
    method FinishScan() returns (r: Scanned<seq<ScannedRun>>)
      requires Valid()
      modifies this
      ensures r == Finish(old(State()))
    {
      hide SpliceAll, SpliceLiteral, SortPending, Consistent, CanonicalMarks, Collect;
      var pending := SortPending(PendingLinks(links) + PendingOpens(opens));
      links, opens := [], [];
      ghost var start := State();
      var rest := pending;
      while rest != []
        invariant SpliceAll(State(), rest) == SpliceAll(start, pending)
        decreases |rest|
      {
        var p := rest[0];
        SpliceStep(State(), rest);
        var failed := Spend(if p.segStart < |segments| then |segments[p.segStart].text| else 0);
        if failed.Some? {
          return Refused(WorkLimit);
        }
        Splice(p);
        rest := rest[1..];
      }
      SpliceNone(State());
      r := CollectRuns(segments);
    }

    // `splice_literal`.
    method Splice(p: Pending)
      modifies `segments
      ensures segments == SpliceLiteral(old(segments), p)
    {
      if p.segStart < |segments| {
        segments := segments[p.segStart := segments[p.segStart].(text := p.literal + segments[p.segStart].text)];
      } else {
        PushText(p.literal);
      }
    }
  }

  lemma CoherentSame(a: Scan, b: Scan)
    requires Coherent(a) && a.segments == b.segments && a.opens == b.opens && a.links == b.links
    ensures Coherent(b)
  {}

  lemma CoherentIndex(s: Scan, open: nat, link: nat)
    requires Coherent(s)
    ensures open < |s.opens| ==> s.opens[open].segStart < |s.segments|
    ensures link < |s.links| ==> s.links[link] < |s.segments|
  {}

  lemma SealedIndex(segments: seq<Piece>, i: nat)
    requires i < |segments|
    ensures i <= |Seal(segments)| - 1
  {}

  lemma BoundaryInside(text: seq<byte>, i: nat)
    requires IsBoundary(text, i)
    ensures i <= |text|
  {}

  lemma SpliceStep(s: Scan, pending: seq<Pending>)
    requires pending != []
    ensures var p := pending[0];
      var c := Charge(s, if p.segStart < |s.segments| then |s.segments[p.segStart].text| else 0);
      SpliceAll(s, pending)
      == if c.Refused? then Refused(c.error)
        else SpliceAll(c.value.(segments := SpliceLiteral(c.value.segments, p)), pending[1..])
  {}

  lemma SpliceNone(s: Scan)
    ensures SpliceAll(s, []) == Done(s)
  {}

  method FindByte(text: seq<byte>, start: nat, b: byte) returns (r: nat)
    requires start <= |text|
    ensures r == IndexOf(text, start, b)
  {
    r := start;
    while r < |text| && text[r] != b
      invariant start <= r <= |text| && IndexOf(text, r, b) == IndexOf(text, start, b)
    {
      r := r + 1;
    }
  }

  lemma CanonicalIsNew(marks: seq<Mark>, found: MarkSet)
    requires Consistent(marks) && found.Valid() && forall m :: m in found.marks <==> m in marks
    ensures found == MarkSet(CanonicalMarks(marks))
  {
    hide CanonicalMarks, Canonical, Consistent;
    CanonicalMembers(marks);
    CanonicalHasAll(marks);
    MarkSetExtensional(found.marks, CanonicalMarks(marks));
  }

  // The filter, map and collect that end `finish`.
  method CollectRuns(segments: seq<Piece>) returns (r: Scanned<seq<ScannedRun>>)
    ensures r == if AllConsistent(segments) then Done(Collect(segments)) else Refused(ConflictingMarks)
  {
    hide Consistent, CanonicalMarks;
    var runs: seq<ScannedRun> := [];
    for i := 0 to |segments|
      invariant runs == Collect(segments[..i])
      invariant forall k :: 0 <= k < i && segments[k].text != [] ==> Consistent(segments[k].marks)
    {
      assert segments[..i + 1][..i] == segments[..i];
      if segments[i].text != [] {
        var marks := NewMarkSet(segments[i].marks);
        if marks.Err? {
          return Refused(ConflictingMarks);
        }
        CanonicalIsNew(segments[i].marks, marks.value);
        runs := runs + [(segments[i].text, marks.value)];
      }
    }
    assert segments[..|segments|] == segments;
    r := Done(runs);
  }

  // `scan_inline`.
  method ScanText(text: Str, markSize: nat, work: nat) returns (r: Scanned<seq<ScannedRun>>)
    ensures r == ScanInline(Source(text, markSize), work)
  {
    hide Run, Finish;
    var scanner := new InlineScanner(text, markSize, work);
    var failed := scanner.RunAll();
    if failed.Some? {
      return Refused(failed.value);
    }
    r := scanner.FinishScan();
  }
}
