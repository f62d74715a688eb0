// The one-pass inline scanner: its state as a value and what each step does to
// it (crates/xiaomu-codec-markdown/src/inline.rs, limits.rs).
module MarkdownInline {
  import opened Wrappers
  import opened Numbers
  import opened Text
  import opened Marks
  import opened MarkdownSyntax

  const MAX_WORK: nat := 16 * 1024 * 1024

  datatype MarkdownError = WorkLimit | InlineImage | EmptyLinkText | ConflictingMarks | BadFenceInfo | UnclosedFence

  datatype Scanned<+T> = Done(value: T) | Refused(error: MarkdownError) {
    predicate IsFailure() {
      Refused?
    }
    function PropagateFailure<U>(): Scanned<U>
      requires Refused?
    {
      Refused(error)
    }
    function Extract(): T
      requires Done?
    {
      value
    }
  }

  datatype EmphToken = BoldToken | ItalicToken | StrikeToken {
    function AsMark(): Mark {
      match this
      case BoldToken => BoldMark
      case ItalicToken => ItalicMark
      case StrikeToken => StrikeMark
    }
    function Literal(): seq<byte> {
      match this
      case BoldToken => [STAR, STAR]
      case ItalicToken => [STAR]
      case StrikeToken => [TILDE, TILDE]
    }
  }

  datatype Piece = Piece(text: seq<byte>, marks: seq<Mark>)

  const EMPTY_PIECE := Piece([], [])

  datatype EmphOpen = EmphOpen(token: EmphToken, segStart: nat)

  // The scanned text, and the size of a mark in memory, which the budget charges.
  datatype Source = Source(text: seq<byte>, markSize: nat)

  datatype Scan = Scan(pos: nat, work: nat, segments: seq<Piece>, opens: seq<EmphOpen>, links: seq<nat>)

  // `Budget::work`.
  function Charge(s: Scan, amount: nat): Scanned<Scan> {
    if s.work + amount > MAX_WORK then Refused(WorkLimit) else Done(s.(work := s.work + amount))
  }

  // `seal`.
  function Seal(segments: seq<Piece>): (r: seq<Piece>)
    ensures r != []
  {
    if segments == [] || segments[|segments| - 1].text != [] then segments + [EMPTY_PIECE] else segments
  }

  // `push_str`.
  function PushStr(segments: seq<Piece>, text: seq<byte>): seq<Piece> {
    if text == [] then segments
    else if segments == [] then [Piece(text, [])]
    else
      var n := |segments| - 1;
      segments[n := segments[n].(text := segments[n].text + text)]
  }

  // Text goes to the last segment and the position moves on.
  function Push(s: Scan, text: seq<byte>, width: nat): Scan {
    s.(segments := PushStr(s.segments, text), pos := s.pos + width)
  }

  // The marks of segments [lo, hi) gain one.
  function MarkRange(segments: seq<Piece>, lo: nat, hi: nat, mark: Mark): (r: seq<Piece>)
    ensures |r| == |segments|
    ensures forall i :: 0 <= i < |r| ==>
      r[i] == if lo <= i < hi then Piece(segments[i].text, segments[i].marks + [mark]) else segments[i]
  {
    seq(|segments|, i requires 0 <= i < |segments| =>
      if lo <= i < hi then Piece(segments[i].text, segments[i].marks + [mark]) else segments[i])
  }

  // `is_ascii_whitespace`.
  predicate IsSpaceByte(b: byte) {
    b == SPACE || b == TAB || b == LF || b == 0x0C || b == 0x0D
  }

  // `ch.len_utf8()`; every byte stands alone in the text that is not UTF-8.
  function CharLen(text: seq<byte>, pos: nat): (n: nat)
    requires pos < |text|
    ensures 0 < n && pos + n <= |text|
  {
    if ScalarLen(text[pos..]) > 0 then ScalarLen(text[pos..]) else 1
  }

  function Step(src: Source, s: Scan): Scanned<Scan>
    requires s.pos < |src.text|
  {
    var c :- Charge(s, 1);
    var text := src.text;
    var b := text[c.pos];
    if b == BACKSLASH then Done(Escaped(text, c))
    else if b == BACKTICK then CodeSpan(text, c)
    else if b == STAR || b == TILDE then Emphasis(src, c)
    else if b == OPEN_BRACKET then Done(LinkOpen(c))
    else if b == CLOSE_BRACKET then LinkClose(src, c)
    else if b == BANG && c.pos + 1 < |text| && text[c.pos + 1] == OPEN_BRACKET then Refused(InlineImage)
    else if b == OPEN_ANGLE then AutoLink(text, c)
    else Done(Push(c, text[c.pos..c.pos + CharLen(text, c.pos)], CharLen(text, c.pos)))
  }

  function Escaped(text: seq<byte>, s: Scan): Scan
    requires s.pos < |text|
  {
    if s.pos + 1 < |text| && IsPunctuation(text[s.pos + 1]) then Push(s, [text[s.pos + 1]], 2)
      else Push(s, [BACKSLASH], 1)
  }

  // Backticks from `i` on.
  function TickRun(text: seq<byte>, i: nat): (n: nat)
    requires i <= |text|
    ensures i + n <= |text|
    decreases |text| - i
  {
    if i < |text| && text[i] == BACKTICK then 1 + TickRun(text, i + 1) else 0
  }

  // The next backtick run of exactly `len`.
  function FindRun(text: seq<byte>, i: nat, len: nat): (r: Option<nat>)
    requires i <= |text| && len > 0
    ensures r.Some? ==> i <= r.value && r.value + len <= |text| && TickRun(text, r.value) == len
    decreases |text| - i
  {
    if i == |text| then None
    else if text[i] == BACKTICK then
      if TickRun(text, i) == len then Some(i) else FindRun(text, i + TickRun(text, i), len)
    else FindRun(text, i + 1, len)
  }

  // One space is stripped on each side of code that is not all spaces.
  function Trimmed(content: seq<byte>): seq<byte> {
    if |content| >= 2 && content[0] == SPACE && content[|content| - 1] == SPACE && !AllSpaces(content)
    then content[1..|content| - 1] else content
  }

  predicate AllSpaces(text: seq<byte>) {
    forall b :: b in text ==> b == SPACE
  }

  function CodeSpan(text: seq<byte>, s: Scan): Scanned<Scan>
    requires s.pos < |text| && text[s.pos] == BACKTICK
  {
    var c :- Charge(s, |text| - s.pos);
    var len := TickRun(text, c.pos);
    var found := FindRun(text, c.pos + len, len);
    if found.None? then Done(Push(c.(segments := Seal(c.segments)), text[c.pos..c.pos + len], len))
    else
      var code := Piece(Trimmed(text[c.pos + len..found.value]), [CodeMark]);
      Done(c.(segments := Seal(Seal(c.segments) + [code]), pos := found.value + len))
  }

  function TokenAt(text: seq<byte>, pos: nat): Option<EmphToken>
    requires pos < |text| && (text[pos] == STAR || text[pos] == TILDE)
  {
    var twice := pos + 1 < |text| && text[pos + 1] == text[pos];
    if text[pos] == STAR then Some(if twice then BoldToken else ItalicToken)
    else if twice then Some(StrikeToken)
    else None
  }

  // `rposition`.
  function LastOpen(opens: seq<EmphOpen>, token: EmphToken): (r: Option<nat>)
    ensures r.Some? ==> r.value < |opens| && opens[r.value].token == token
    ensures r.None? <==> forall i :: 0 <= i < |opens| ==> opens[i].token != token
  {
    if opens == [] then None
    else if opens[|opens| - 1].token == token then Some(|opens| - 1)
    else LastOpen(opens[..|opens| - 1], token)
  }

  function Emphasis(src: Source, s: Scan): Scanned<Scan>
    requires s.pos < |src.text| && (src.text[s.pos] == STAR || src.text[s.pos] == TILDE)
  {
    var c :- Charge(s, |s.opens| + |s.segments|);
    var token := TokenAt(src.text, c.pos);
    if token.None? then Done(Push(c, [TILDE], 1))
    else
      var open := if c.pos > 0 && !IsSpaceByte(src.text[c.pos - 1]) then LastOpen(c.opens, token.value) else None;
      if open.Some? then EmphClose(src, c, token.value, open.value)
      else Done(EmphOpenOrText(src.text, c, token.value))
  }

  function EmphOpenOrText(text: seq<byte>, s: Scan, token: EmphToken): Scan {
    var next := s.pos + |token.Literal()|;
    if next < |text| && !IsSpaceByte(text[next]) then
      var segments := Seal(s.segments);
      s.(segments := segments, opens := s.opens + [EmphOpen(token, |segments| - 1)], pos := next)
    else Push(s, token.Literal(), |token.Literal()|)
  }

  function EmphClose(src: Source, s: Scan, token: EmphToken, index: nat): Scanned<Scan>
    requires index < |s.opens|
  {
    var from := s.opens[index].segStart;
    var segments := Seal(s.segments);
    var end := |segments| - 1;
    var c :- Charge(s, Less(end, from) * src.markSize);
    Done(c.(segments := MarkRange(segments, from, end, token.AsMark()),
            opens := s.opens[..index] + s.opens[index + 1..], pos := s.pos + |token.Literal()|))
  }

  function LinkOpen(s: Scan): Scan {
    var segments := Seal(s.segments);
    s.(segments := segments, links := s.links + [|segments| - 1], pos := s.pos + 1)
  }

  function LinkClose(src: Source, s: Scan): Scanned<Scan>
    requires s.pos < |src.text|
  {
    if s.links == [] then Done(Push(s, [CLOSE_BRACKET], 1))
    else
      var after := src.text[s.pos + 1..];
      var dropped := s.(links := s.links[..|s.links| - 1]);
      if after == [] || after[0] != OPEN_PAREN then Done(Push(dropped, [CLOSE_BRACKET], 1))
      else
        var c :- Charge(s, |after| - 1 + |s.segments|);
        var target := ParseDestination(after[1..]);
        if target.None? then Done(Push(dropped.(work := c.work), [CLOSE_BRACKET], 1))
        else LinkMarks(src, c, target.value.0, target.value.1, target.value.2)
  }

  // No text in segments [lo, hi).
  predicate NoText(segments: seq<Piece>, lo: nat, hi: nat) {
    forall i :: lo <= i < hi && i < |segments| ==> segments[i].text == []
  }

  function LinkMarks(src: Source, s: Scan, url: seq<byte>, title: Option<seq<byte>>, consumed: nat): Scanned<Scan>
    requires s.links != []
  {
    var from := s.links[|s.links| - 1];
    var segments := Seal(s.segments);
    var end := |segments| - 1;
    if NoText(segments, from, end) then Refused(EmptyLinkText)
    else
      var size := |url| + (if title.Some? then |title.value| else 0) + src.markSize;
      var c :- Charge(s, Less(end, from) * size);
      Done(c.(segments := MarkRange(segments, from, end, LinkMark(url, title)), links := s.links[..|s.links| - 1],
              pos := s.pos + 2 + consumed))
  }

  // The first position of `b` at or after `i`; the length when there is none.
  function IndexOf(text: seq<byte>, i: nat, b: byte): (r: nat)
    requires i <= |text|
    ensures i <= r <= |text| && (r < |text| ==> text[r] == b)
    decreases |text| - i
  {
    if i == |text| || text[i] == b then i else IndexOf(text, i + 1, b)
  }

  predicate IsAlpha(b: byte) {
    0x41 <= b <= 0x5A || 0x61 <= b <= 0x7A
  }

  predicate IsSchemeByte(b: byte) {
    IsAlpha(b) || 0x30 <= b <= 0x39 || b == 0x2B || b == 0x2E || b == 0x2D
  }

  // A nonempty scheme before the first colon.
  predicate HasScheme(uri: seq<byte>) {
    var colon := IndexOf(uri, 0, 0x3A);
    && 0 < colon < |uri| && IsAlpha(uri[0]) && forall i :: 0 <= i < colon ==> IsSchemeByte(uri[i])
  }

  function AutoLink(text: seq<byte>, s: Scan): Scanned<Scan>
    requires s.pos < |text|
  {
    var c :- Charge(s, |text| - s.pos);
    var close := IndexOf(text, c.pos + 1, CLOSE_ANGLE);
    if close == |text| || !HasScheme(text[c.pos + 1..close]) then Done(Push(c, [OPEN_ANGLE], 1))
    else
      var uri := text[c.pos + 1..close];
      Done(c.(segments := Seal(Seal(c.segments) + [Piece(uri, [LinkMark(uri, None)])]), pos := close + 1))
  }

  // ----- the whole scan

  lemma {:induction false} StepAdvances(src: Source, s: Scan)
    requires s.pos < |src.text|
    ensures Step(src, s).Done? ==> s.pos < Step(src, s).value.pos
  {
    hide Seal, PushStr, MarkRange, CharLen, ParseDestination, IndexOf, HasScheme, NoText, Trimmed, LastOpen;
    if src.text[s.pos] == BACKTICK {
      assert TickRun(src.text, s.pos) > 0;
    }
  }

  // `run`: steps to the end of the text.
  function Run(src: Source, s: Scan): Scanned<Scan>
    decreases Less(|src.text|, s.pos)
  {
    if s.pos >= |src.text| then Done(s)
    else
      StepAdvances(src, s);
      var next :- Step(src, s);
      Run(src, next)
  }

  // An unclosed bracket or delimiter and the segment its text returns to.
  datatype Pending = Pending(segStart: nat, literal: seq<byte>)

  function PendingLinks(links: seq<nat>): (r: seq<Pending>)
    ensures |r| == |links|
  {
    seq(|links|, i requires 0 <= i < |links| => Pending(links[i], [OPEN_BRACKET]))
  }

  function PendingOpens(opens: seq<EmphOpen>): (r: seq<Pending>)
    ensures |r| == |opens|
    ensures forall i :: 0 <= i < |r| ==> r[i] == Pending(opens[i].segStart, opens[i].token.Literal())
  {
    seq(|opens|, i requires 0 <= i < |opens| => Pending(opens[i].segStart, opens[i].token.Literal()))
  }

  // `sort_by_key(Reverse(seg_start))`, as a stable insertion sort.
  function InsertPending(sorted: seq<Pending>, p: Pending): (r: seq<Pending>)
    ensures |r| == |sorted| + 1
  {
    if sorted == [] || sorted[0].segStart < p.segStart then [p] + sorted
      else [sorted[0]] + InsertPending(sorted[1..], p)
  }

  function SortPending(pending: seq<Pending>): (r: seq<Pending>)
    ensures |r| == |pending|
  {
    if pending == [] then [] else InsertPending(SortPending(pending[..|pending| - 1]), pending[|pending| - 1])
  }

  // `splice_literal`.
  function SpliceLiteral(segments: seq<Piece>, p: Pending): seq<Piece> {
    if p.segStart < |segments| then
      segments[p.segStart := segments[p.segStart].(text := p.literal + segments[p.segStart].text)]
    else PushStr(segments, p.literal)
  }

  function SpliceAll(s: Scan, pending: seq<Pending>): Scanned<Scan>
    decreases |pending|
  {
    if pending == [] then Done(s)
    else
      var p := pending[0];
      var c :- Charge(s, if p.segStart < |s.segments| then |s.segments[p.segStart].text| else 0);
      SpliceAll(c.(segments := SpliceLiteral(c.segments, p)), pending[1..])
  }

  // The canonical set of consistent marks.
  function CanonicalMarks(marks: seq<Mark>): seq<Mark> {
    if marks == [] then []
    else
      var n := |marks| - 1;
      var rest := CanonicalMarks(marks[..n]);
      if ContainsKind(rest, marks[n].Kind()) then rest else InsertByKind(rest, marks[n])
  }

  type ScannedRun = (seq<byte>, MarkSet)

  // The segments with text, each with its mark set.
  function Collect(segments: seq<Piece>): seq<ScannedRun> {
    if segments == [] then []
    else
      var n := |segments| - 1;
      var rest := Collect(segments[..n]);
      if segments[n].text == [] then rest else rest + [(segments[n].text, MarkSet(CanonicalMarks(segments[n].marks)))]
  }

  predicate AllConsistent(segments: seq<Piece>) {
    forall i :: 0 <= i < |segments| && segments[i].text != [] ==> Consistent(segments[i].marks)
  }

  // `finish`.
  function Finish(s: Scan): Scanned<seq<ScannedRun>> {
    var spliced :- SpliceAll(s.(opens := [], links := []), SortPending(PendingLinks(s.links) + PendingOpens(s.opens)));
    if AllConsistent(spliced.segments) then Done(Collect(spliced.segments)) else Refused(ConflictingMarks)
  }

  // `scan_inline` with a budget already charged `work`.
  function ScanInline(src: Source, work: nat): Scanned<seq<ScannedRun>> {
    var s :- Run(src, Scan(0, work, [], [], []));
    Finish(s)
  }
}
