// Fenced code blocks, written and read back line by line
// (crates/xiaomu-codec-markdown/src/serialize.rs, parse.rs, escape.rs).
module MarkdownFence {
  import opened Wrappers
  import opened Numbers
  import opened Text
  import opened MarkdownSyntax
  import opened MarkdownInline
  import opened MarkdownRuns
  import opened MarkdownCode

  const CR: byte := 0x0D

  // ----- lines

  // `split('\\n')`.
  function SplitLf(s: seq<byte>): (r: seq<seq<byte>>)
    ensures r != []
    decreases |s|
  {
    var k := IndexOf(s, 0, LF);
    if k == |s| then [s] else [s[..k]] + SplitLf(s[k + 1..])
  }

  // `strip_suffix('\\r')`.
  function StripCr(line: seq<byte>): seq<byte> {
    if line != [] && line[|line| - 1] == CR then line[..|line| - 1] else line
  }

  function StripCrs(lines: seq<seq<byte>>): (r: seq<seq<byte>>)
    ensures |r| == |lines| && forall i :: 0 <= i < |r| ==> r[i] == StripCr(lines[i])
  {
    seq(|lines|, i requires 0 <= i < |lines| => StripCr(lines[i]))
  }

  function DropLastEmpty(lines: seq<seq<byte>>): seq<seq<byte>> {
    if lines != [] && lines[|lines| - 1] == [] then lines[..|lines| - 1] else lines
  }

  // `normalize_source`.
  function Lines(source: seq<byte>): seq<seq<byte>> {
    DropLastEmpty(StripCrs(SplitLf(source)))
  }

  // The lines, each with its line feed.
  function Unlines(lines: seq<seq<byte>>): seq<byte> {
    if lines == [] then [] else lines[0] + [LF] + Unlines(lines[1..])
  }

  // ----- indentation

  // `split_indent`: columns of indentation.
  function Indent(line: seq<byte>): nat {
    if line == [] then 0
    else if line[0] == SPACE then 1 + Indent(line[1..])
    else if line[0] == TAB then 4 + Indent(line[1..])
    else 0
  }

  // `strip_indent` once `consumed` columns are gone.
  function StripFrom(line: seq<byte>, consumed: nat, columns: nat): seq<byte> {
    if line == [] || consumed >= columns then line
    else if line[0] == SPACE then StripFrom(line[1..], consumed + 1, columns)
    else if line[0] == TAB then StripFrom(line[1..], consumed + 4, columns)
    else line
  }

  method SplitIndent(line: seq<byte>) returns (indent: nat, rest: seq<byte>)
    ensures indent == Indent(line) && rest == StripFrom(line, 0, indent)
    ensures rest == [] || (rest[0] != SPACE && rest[0] != TAB)
  {
    indent, rest := 0, line;
    while rest != [] && (rest[0] == SPACE || rest[0] == TAB)
      invariant indent + Indent(rest) == Indent(line)
      invariant StripFrom(rest, indent, Indent(line)) == StripFrom(line, 0, Indent(line))
      decreases |rest|
    {
      indent := if rest[0] == SPACE then indent + 1 else indent + 4;
      rest := rest[1..];
    }
  }

  // `strip_indent`: a tab is one byte and four columns.
  method StripIndent(line: seq<byte>, columns: nat) returns (r: seq<byte>)
    ensures r == StripFrom(line, 0, columns)
  {
    var consumed, bytes := 0, 0;
    assert line[0..] == line;
    while bytes < |line| && consumed < columns && (line[bytes] == SPACE || line[bytes] == TAB)
      invariant bytes <= |line| && StripFrom(line[bytes..], consumed, columns) == StripFrom(line, 0, columns)
    {
      assert line[bytes..][1..] == line[bytes + 1..];
      consumed := consumed + (if line[bytes] == SPACE then 1 else 4);
      bytes := bytes + 1;
    }
    r := line[bytes..];
  }

  // ----- reading a fence

  // A character with the Unicode White_Space property starts at `i`.
  predicate SpaceAt(s: seq<byte>, i: nat)
    requires i < |s|
  {
    || 0x09 <= s[i] <= 0x0D || s[i] == SPACE
    || (i + 1 < |s| && s[i] == 0xC2 && (s[i + 1] == 0x85 || s[i + 1] == 0xA0))
    || (&& i + 2 < |s|
        && (|| (s[i] == 0xE1 && s[i + 1] == 0x9A && s[i + 2] == 0x80)
            || (s[i] == 0xE2 && s[i + 1] == 0x80
              && (0x80 <= s[i + 2] <= 0x8A || 0xA8 <= s[i + 2] <= 0xA9 || s[i + 2] == 0xAF))
            || (s[i] == 0xE2 && s[i + 1] == 0x81 && s[i + 2] == 0x9F)
            || (s[i] == 0xE3 && s[i + 1] == 0x80 && s[i + 2] == 0x80)))
  }

  // A single word without backticks.
  predicate GoodInfo(info: seq<byte>) {
    BACKTICK !in info && forall i :: 0 <= i < |info| ==> !SpaceAt(info, i)
  }

  predicate IsClosingFence(content: seq<byte>, len: nat) {
    |content| >= len && AllTicks(content)
  }

  // The body lines and the position after the closing fence.
  function ReadBody(lines: seq<seq<byte>>, pos: nat, indent: nat, len: nat, work: nat): Scanned<(seq<seq<byte>>, nat)>
    decreases Less(|lines|, pos)
  {
    if pos >= |lines| then Refused(UnclosedFence)
    else if work + |lines[pos]| > MAX_WORK then Refused(WorkLimit)
    else
      var content := FenceContent(lines[pos], indent);
      if IsClosingFence(content, len) then Done(([], pos + 1))
      else
        var rest := ReadBody(lines, pos + 1, indent, len, work + |lines[pos]|);
        if rest.Refused? then Refused(rest.error) else Done(([content] + rest.value.0, rest.value.1))
  }

  function FenceContent(line: seq<byte>, indent: nat): seq<byte> {
    StripFrom(line, 0, if Indent(line) < indent then Indent(line) else indent)
  }

  // The language, the body, and the lines read.
  type Fenced = (Option<seq<byte>>, seq<byte>, nat)

  // `parse_fence` at line `pos`; `text` is that line without its indentation.
  function ParseFence(lines: seq<seq<byte>>, pos: nat, indent: nat, text: seq<byte>, work: nat): Scanned<Fenced> {
    var len := TickRun(text, 0);
    var info := text[len..];
    if !GoodInfo(info) then Refused(BadFenceInfo)
    else
      var body := ReadBody(lines, pos + 1, indent, len, work);
      if body.Refused? then Refused(body.error)
      else Done((if info == [] then None else Some(info), Unlines(body.value.0), body.value.1))
  }

  // The information string passes when it is one word without backticks.
  method CheckInfo(info: seq<byte>) returns (good: bool)
    ensures good <==> GoodInfo(info)
  {
    for i := 0 to |info|
      invariant BACKTICK !in info[..i] && forall k :: 0 <= k < i ==> !SpaceAt(info, k)
    {
      if info[i] == BACKTICK || SpaceAt(info, i) {
        return false;
      }
      assert info[..i + 1] == info[..i] + [info[i]];
    }
    assert info[..|info|] == info;
    good := true;
  }

  method CheckClosing(content: seq<byte>, len: nat) returns (closing: bool)
    ensures closing <==> IsClosingFence(content, len)
  {
    if |content| < len {
      return false;
    }
    for i := 0 to |content|
      invariant forall k :: 0 <= k < i ==> content[k] == BACKTICK
    {
      if content[i] != BACKTICK {
        return false;
      }
    }
    closing := true;
  }

  // What the loop has read before `rest`.
  function ReadOn(front: seq<seq<byte>>, rest: Scanned<(seq<seq<byte>>, nat)>): Scanned<(seq<seq<byte>>, nat)> {
    if rest.Refused? then rest else Done((front + rest.value.0, rest.value.1))
  }

  lemma ReadOnPush(front: seq<seq<byte>>, line: seq<byte>, rest: Scanned<(seq<seq<byte>>, nat)>)
    ensures ReadOn(front, ReadOn([line], rest)) == ReadOn(front + [line], rest)
    ensures ReadOn([], rest) == rest
      && (rest.Done? && rest.value.0 == [] ==> ReadOn(front, rest) == Done((front, rest.value.1)))
  {
    if rest.Done? {
      assert front + ([line] + rest.value.0) == front + [line] + rest.value.0;
      assert [] + rest.value.0 == rest.value.0;
      assert front + [] == front;
    }
  }

  // The loop of `parse_fence`.
  method ReadFenceBody(lines: seq<seq<byte>>, start: nat, indent: nat, len: nat, work: nat)
    returns (r: Scanned<(seq<seq<byte>>, nat)>)
    ensures r == ReadBody(lines, start, indent, len, work)
  {
    hide IsClosingFence, Indent, StripFrom;
    var pos: nat, spent: nat, body: seq<seq<byte>> := start, work, [];
    ReadOnPush([], [], ReadBody(lines, start, indent, len, work));
    while true
      invariant ReadOn(body, ReadBody(lines, pos, indent, len, spent)) == ReadBody(lines, start, indent, len, work)
      decreases Less(|lines|, pos)
    {
      if pos >= |lines| {
        return Refused(UnclosedFence);
      }
      var lineIndent, _ := SplitIndent(lines[pos]);
      if spent + |lines[pos]| > MAX_WORK {
        return Refused(WorkLimit);
      }
      var content := StripIndent(lines[pos], if lineIndent < indent then lineIndent else indent);
      var closing := CheckClosing(content, len);
      ReadOnPush(body, content, ReadBody(lines, pos + 1, indent, len, spent + |lines[pos]|));
      if closing {
        ReadOnPush(body, [], ReadBody(lines, pos, indent, len, spent));
        return Done((body, pos + 1));
      }
      spent := spent + |lines[pos]|;
      body := body + [content];
      pos := pos + 1;
    }
  }

  // `parse_fence`, up to inserting the node.
  method ReadFence(lines: seq<seq<byte>>, pos: nat, indent: nat, work: nat) returns (r: Scanned<Fenced>)
    requires pos < |lines|
    ensures r == ParseFence(lines, pos, indent, StripFrom(lines[pos], 0, Indent(lines[pos])), work)
  {
    hide GoodInfo, ReadBody, Unlines;
    var _, text := SplitIndent(lines[pos]);
    var len := 0;
    while len < |text| && text[len] == BACKTICK
      invariant len <= |text| && len + TickRun(text, len) == TickRun(text, 0)
    {
      len := len + 1;
    }
    var info := text[len..];
    var good := CheckInfo(info);
    if !good {
      return Refused(BadFenceInfo);
    }
    var body := ReadFenceBody(lines, pos + 1, indent, len, work);
    if body.Refused? {
      return Refused(body.error);
    }
    var shown := JoinLines(body.value.0);
    r := Done((if info == [] then None else Some(info), shown, body.value.1));
  }

  lemma {:induction false} UnlinesPush(lines: seq<seq<byte>>, line: seq<byte>)
    ensures Unlines(lines + [line]) == Unlines(lines) + (line + [LF])
  {
    if lines == [] {
      assert ([] + [line])[1..] == [];
    } else {
      assert (lines + [line])[1..] == lines[1..] + [line];
      UnlinesPush(lines[1..], line);
    }
  }

  // The joined body with its final line feed, or nothing.
  method JoinLines(lines: seq<seq<byte>>) returns (r: seq<byte>)
    ensures r == Unlines(lines)
  {
    r := [];
    assert lines[..0] == [];
    for i := 0 to |lines|
      invariant r == Unlines(lines[..i])
    {
      assert lines[..i + 1] == lines[..i] + [lines[i]];
      UnlinesPush(lines[..i], lines[i]);
      r := r + (lines[i] + [LF]);
    }
    assert lines[..|lines|] == lines;
  }

  // ----- writing a fence

  // `code_block_fence`.
  function BlockFence(body: seq<byte>): seq<byte> {
    Ticks((if LongestRun(body) > 2 then LongestRun(body) else 2) + 1)
  }

  // The body as `write_code_block` puts it between the fences.
  function Terminated(body: seq<byte>): seq<byte> {
    if body == [] || body[|body| - 1] == LF then body else body + [LF]
  }

  // `write_code_block` without padding.
  function PrintFenced(language: Option<seq<byte>>, body: seq<byte>): seq<byte> {
    var info := if language.Some? then language.value else [];
    BlockFence(body) + info + [LF] + Terminated(body) + BlockFence(body) + [LF]
  }

  // ----- the round trip

  predicate NoCrLf(s: seq<byte>) {
    forall i :: 0 <= i < |s| - 1 ==> !(s[i] == CR && s[i + 1] == LF)
  }

  // Bodies the block can hold: whole lines, none ending in a carriage return.
  predicate WholeLines(body: seq<byte>) {
    (body == [] || body[|body| - 1] == LF) && NoCrLf(body)
  }

  predicate GoodLanguage(language: Option<seq<byte>>) {
    language.Some? ==> language.value != [] && GoodInfo(language.value)
  }

  lemma {:induction false} FirstLine(line: seq<byte>, rest: seq<byte>)
    requires LF !in line
    ensures SplitLf(line + [LF] + rest) == [line] + SplitLf(rest)
  {
    var s := line + [LF] + rest;
    NotBefore(s, 0, |line|);
    assert s[..|line|] == line && s[|line| + 1..] == rest;
  }

  lemma {:induction false} NotBefore(s: seq<byte>, i: nat, k: nat)
    requires i <= k < |s| && s[k] == LF && forall j :: i <= j < k ==> s[j] != LF
    ensures IndexOf(s, i, LF) == k
    decreases k - i
  {
    if i < k {
      NotBefore(s, i + 1, k);
    }
  }

  predicate NoLf(lines: seq<seq<byte>>) {
    forall i :: 0 <= i < |lines| ==> LF !in lines[i]
  }

  lemma {:induction false} SplitUnlines(lines: seq<seq<byte>>, rest: seq<byte>)
    requires NoLf(lines)
    ensures SplitLf(Unlines(lines) + rest) == lines + SplitLf(rest)
  {
    hide SplitLf;
    if lines == [] {
      assert Unlines(lines) + rest == rest;
    } else {
      SplitUnlines(lines[1..], rest);
      FirstLine(lines[0], Unlines(lines[1..]) + rest);
      assert Unlines(lines) + rest == lines[0] + [LF] + (Unlines(lines[1..]) + rest);
      assert lines == [lines[0]] + lines[1..];
    }
  }

  // The lines of a text that ends each with a line feed.
  lemma {:induction false} LinesOf(s: seq<byte>) returns (lines: seq<seq<byte>>)
    requires s == [] || s[|s| - 1] == LF
    ensures s == Unlines(lines) && NoLf(lines)
    decreases |s|
  {
    if s == [] {
      lines := [];
    } else {
      var k := IndexOf(s, 0, LF);
      FirstIsFirst(s, 0);
      var rest := LinesOf(s[k + 1..]);
      lines := [s[..k]] + rest;
      assert lines[1..] == rest;
      assert s == s[..k] + [LF] + s[k + 1..];
    }
  }

  lemma {:induction false} FirstIsFirst(s: seq<byte>, i: nat)
    requires i < |s| && s[|s| - 1] == LF
    ensures var k := IndexOf(s, i, LF); i <= k < |s| && s[k] == LF && forall j :: i <= j < k ==> s[j] != LF
    decreases |s| - i
  {
    if s[i] != LF {
      FirstIsFirst(s, i + 1);
    }
  }

  // No line of backticks is as long as the fence.
  lemma {:induction false} TicksInLines(lines: seq<seq<byte>>, i: nat, content: seq<byte>)
    requires i < |lines| && content <= lines[i] && AllTicks(content)
    ensures |content| <= LongestRun(Unlines(lines))
  {
    hide LongestRun;
    var s := Unlines(lines);
    if i == 0 {
      assert s[0..|content|] == content;
      LongestIsLongest(s, 0, |content|);
    } else {
      TicksInLines(lines[1..], i - 1, content);
      LongestOfTail(lines[0] + [LF], Unlines(lines[1..]));
    }
  }

  lemma {:induction false} LongestOfTail(a: seq<byte>, b: seq<byte>)
    ensures LongestRun(b) <= LongestRun(a + b)
  {
    LongestAttained(b);
    var i, j :| 0 <= i <= j <= |b| && AllTicks(b[i..j]) && j - i == LongestRun(b);
    assert (a + b)[|a| + i..|a| + j] == b[i..j];
    LongestIsLongest(a + b, |a| + i, |a| + j);
  }

  lemma {:induction false} TrailingAreTicks(s: seq<byte>)
    ensures AllTicks(s[|s| - TrailingRun(s)..])
  {
    if s != [] && s[|s| - 1] == BACKTICK {
      var front := s[..|s| - 1];
      TrailingAreTicks(front);
      assert s[|s| - TrailingRun(s)..] == front[|front| - TrailingRun(front)..] + [BACKTICK];
    }
  }

  lemma {:induction false} LongestAttained(s: seq<byte>)
    ensures exists i: nat, j: nat :: i <= j <= |s| && AllTicks(s[i..j]) && j - i == LongestRun(s)
  {
    if s == [] {
      assert AllTicks(s[0..0]);
    } else {
      var front := s[..|s| - 1];
      if LongestRun(front) >= TrailingRun(s) {
        LongestAttained(front);
        var i: nat, j: nat :| i <= j <= |front| && AllTicks(front[i..j]) && j - i == LongestRun(front);
        assert s[i..j] == front[i..j];
      } else {
        TrailingAreTicks(s);
        assert s[|s| - TrailingRun(s)..|s|] == s[|s| - TrailingRun(s)..];
      }
    }
  }

  lemma {:induction false} TerminatedRuns(body: seq<byte>)
    ensures LongestRun(Terminated(body)) == LongestRun(body)
  {
    if Terminated(body) != body {
      assert Terminated(body)[..|body|] == body;
    }
  }

  // Reading stops at the closing fence and nowhere before it.
  lemma {:induction false} BodyReads(lines: seq<seq<byte>>, pos: nat, body: seq<seq<byte>>, fence: seq<byte>, work: nat)
    requires pos + |body| < |lines| && lines[pos..pos + |body|] == body && lines[pos + |body|] == fence
    requires AllTicks(fence) && forall i :: 0 <= i < |body| && AllTicks(body[i]) ==> |body[i]| < |fence|
    ensures var r := ReadBody(lines, pos, 0, |fence|, work);
      && (r == Refused(WorkLimit) || r == Done((body, pos + |body| + 1)))
      && (work + |Unlines(body)| + |fence| <= MAX_WORK ==> r == Done((body, pos + |body| + 1)))
    decreases |body|
  {
    if body != [] {
      assert lines[pos] == lines[pos..pos + |body|][0];
      assert lines[pos + 1..pos + |body|] == body[1..];
      BodyReads(lines, pos + 1, body[1..], fence, work + |lines[pos]|);
      assert body == [body[0]] + body[1..];
    }
  }

  predicate EndsInCr(line: seq<byte>) {
    line != [] && line[|line| - 1] == CR
  }

  predicate NoneEndsInCr(lines: seq<seq<byte>>) {
    forall i :: 0 <= i < |lines| ==> !EndsInCr(lines[i])
  }

  // Stripping shortens exactly the texts with a carriage return before a line feed.
  lemma {:induction false} StrippedSame(lines: seq<seq<byte>>)
    requires NoLf(lines)
    ensures |Unlines(StripCrs(lines))| <= |Unlines(lines)|
    ensures Unlines(StripCrs(lines)) == Unlines(lines) <==> NoneEndsInCr(lines)
    ensures |Unlines(StripCrs(lines))| == |Unlines(lines)| ==> NoneEndsInCr(lines)
  {
    if lines == [] {
      assert StripCrs(lines) == [];
    } else {
      var tail := lines[1..];
      StrippedSame(tail);
      assert StripCrs(lines)[1..] == StripCrs(tail);
      assert NoneEndsInCr(lines) <==> !EndsInCr(lines[0]) && NoneEndsInCr(tail) by {
        assert lines == [lines[0]] + tail;
      }
    }
  }

  lemma {:induction false} NoCrLfLines(lines: seq<seq<byte>>)
    requires NoLf(lines)
    ensures NoCrLf(Unlines(lines)) <==> NoneEndsInCr(lines)
  {
    if lines != [] {
      var tail := lines[1..];
      NoCrLfLines(tail);
      assert NoneEndsInCr(lines) <==> !EndsInCr(lines[0]) && NoneEndsInCr(tail) by {
        assert lines == [lines[0]] + tail;
      }
      NoCrLfJoin(lines[0], Unlines(tail));
    }
  }

  lemma {:induction false} NoCrLfJoin(line: seq<byte>, rest: seq<byte>)
    requires LF !in line
    ensures NoCrLf(line + [LF] + rest) <==> !EndsInCr(line) && NoCrLf(rest)
  {
    var s, n := line + [LF] + rest, |line|;
    if !EndsInCr(line) && NoCrLf(rest) {
      forall i | 0 <= i < |s| - 1
        ensures !(s[i] == CR && s[i + 1] == LF)
      {
        if i + 1 < n {
          assert s[i + 1] == line[i + 1] && line[i + 1] in line;
        } else if i > n {
          assert s[i] == rest[i - n - 1] && s[i + 1] == rest[i - n - 1 + 1];
        }
      }
    } else if EndsInCr(line) {
      assert s[n - 1] == CR && s[n - 1 + 1] == LF;
    } else {
      var i :| 0 <= i < |rest| - 1 && rest[i] == CR && rest[i + 1] == LF;
      assert s[n + 1 + i] == CR && s[n + 1 + i + 1] == LF;
    }
  }

  // ----- the lines of a printed block

  lemma DropTail(front: seq<seq<byte>>, tail: seq<seq<byte>>)
    requires tail != []
    ensures DropLastEmpty(front + tail) == front + DropLastEmpty(tail)
  {
    assert (front + tail)[..|front + tail| - 1] == front + tail[..|tail| - 1];
  }

  lemma StripConcat(a: seq<seq<byte>>, b: seq<seq<byte>>)
    ensures StripCrs(a + b) == StripCrs(a) + StripCrs(b)
  {}

  lemma GoodInfoLine(fence: seq<byte>, info: seq<byte>)
    requires GoodInfo(info) && AllTicks(fence) && fence != []
    ensures LF !in fence + info && StripCr(fence + info) == fence + info && StripCr(fence) == fence && LF !in fence
    ensures TickRun(fence + info, 0) == |fence| && (fence + info)[|fence|..] == info
    ensures (fence + info)[0] == BACKTICK
  {
    var line := fence + info;
    assert forall i :: 0 <= i < |fence| ==> line[i] == BACKTICK;
    assert forall i :: |fence| <= i < |line| ==>
      line[i] == info[i - |fence|] && line[i] in info && !SpaceAt(info, i - |fence|);
    assert line[0..0 + |fence|] == fence;
    TickRunIs(line, 0, |fence|);
  }

  lemma {:induction false} PrintedLines(fence: seq<byte>, info: seq<byte>, lines: seq<seq<byte>>, rest: seq<byte>)
    requires GoodInfo(info) && AllTicks(fence) && fence != [] && NoLf(lines)
    ensures Lines(fence + info + [LF] + Unlines(lines) + fence + [LF] + rest)
      == [fence + info] + StripCrs(lines) + [fence] + Lines(rest)
  {
    hide SplitLf, StripCrs, DropLastEmpty, GoodInfo, Unlines, StripCr, AllTicks;
    GoodInfoLine(fence, info);
    var tail := fence + [LF] + rest;
    FirstLine(fence, rest);
    SplitUnlines(lines, tail);
    FirstLine(fence + info, Unlines(lines) + tail);
    Reassociate(fence + info + [LF], Unlines(lines), fence, rest);
    var after := SplitLf(rest);
    StripConcat([fence + info], lines + ([fence] + after));
    StripConcat(lines, [fence] + after);
    StripConcat([fence], after);
    StripOne(fence);
    StripOne(fence + info);
    var front := [fence + info] + StripCrs(lines) + [fence];
    assert [fence + info] + (StripCrs(lines) + ([fence] + StripCrs(after))) == front + StripCrs(after);
    DropTail(front, StripCrs(after));
  }

  lemma Reassociate(a: seq<byte>, b: seq<byte>, fence: seq<byte>, rest: seq<byte>)
    ensures a + b + fence + [LF] + rest == a + (b + (fence + [LF] + rest))
  {}

  lemma StripOne(line: seq<byte>)
    ensures StripCrs([line]) == [StripCr(line)]
  {}

  // `parse_fence` on line `pos`, with that line's own indentation.
  function ParseAt(lines: seq<seq<byte>>, pos: nat, work: nat): Scanned<Fenced>
    requires pos < |lines|
  {
    ParseFence(lines, pos, Indent(lines[pos]), StripFrom(lines[pos], 0, Indent(lines[pos])), work)
  }

  lemma {:induction false} PrintedParse(fence: seq<byte>, info: seq<byte>, body: seq<seq<byte>>, rest: seq<seq<byte>>,
                                        work: nat)
    requires GoodInfo(info) && AllTicks(fence) && fence != []
    requires forall i :: 0 <= i < |body| && AllTicks(body[i]) ==> |body[i]| < |fence|
    ensures var r := ParseAt([fence + info] + body + [fence] + rest, 0, work);
      var answer := Done((if info == [] then None else Some(info), Unlines(body), |body| + 2));
      && (r == Refused(WorkLimit) || r == answer)
      && (work + |Unlines(body)| + |fence| <= MAX_WORK ==> r == answer)
  {
    hide GoodInfo, Unlines, TickRun, ReadBody, AllTicks;
    var lines := [fence + info] + body + [fence] + rest;
    GoodInfoLine(fence, info);
    assert Indent(lines[0]) == 0;
    assert lines[1..1 + |body|] == body && lines[1 + |body|] == fence;
    BodyReads(lines, 1, body, fence, work);
  }

  // A printed block reads back, and only that block is consumed, exactly when
  // its language is one word and its body is whole lines. The budget does not
  // stop it while as much work as its printed length is left.
  lemma {:induction false} FenceRoundTrip(language: Option<seq<byte>>, body: seq<byte>, rest: seq<byte>, work: nat)
    ensures Lines(PrintFenced(language, body) + rest) != []
    ensures var printed := PrintFenced(language, body); var lines := Lines(printed + rest);
      var r := ParseAt(lines, 0, work);
      var same := r.Done? && r.value.0 == language && r.value.1 == body;
      && (r == Refused(WorkLimit) || (same <==> GoodLanguage(language) && WholeLines(body)))
      && (work + |printed| <= MAX_WORK ==> (same <==> GoodLanguage(language) && WholeLines(body)))
      && (GoodLanguage(language) && r.Done? ==> r.value.2 <= |lines| && lines[r.value.2..] == Lines(rest))
  {
    hide Lines, GoodInfo, ParseAt, WholeLines, LongestRun, Unlines, StripCrs;
    StartsWithFence(language, body, rest);
    if GoodLanguage(language) {
      GoodBlock(language, body, rest, work);
    } else {
      var lines := Lines(PrintFenced(language, body) + rest);
      ReadLanguageIsGood(lines, 0, work);
    }
  }

  lemma {:induction false} ReadLanguageIsGood(lines: seq<seq<byte>>, pos: nat, work: nat)
    requires pos < |lines|
    ensures var r := ParseAt(lines, pos, work); r.Done? ==> GoodLanguage(r.value.0)
  {
    hide GoodInfo, ReadBody, Unlines;
  }

  lemma {:induction false} StartsWithFence(language: Option<seq<byte>>, body: seq<byte>, rest: seq<byte>)
    ensures Lines(PrintFenced(language, body) + rest) != []
  {
    hide LongestRun;
    var src := PrintFenced(language, body) + rest;
    assert src[0] == BlockFence(body)[0] == BACKTICK;
    var raw := SplitLf(src);
    assert raw[0] != [] && raw[0][0] == BACKTICK;
    assert StripCr(raw[0]) != [];
    assert StripCrs(raw)[0] != [];
  }

  lemma {:induction false} GoodBlock(language: Option<seq<byte>>, body: seq<byte>, rest: seq<byte>, work: nat)
    requires GoodLanguage(language)
    ensures Lines(PrintFenced(language, body) + rest) != []
    ensures var printed := PrintFenced(language, body); var lines := Lines(printed + rest);
      var r := ParseAt(lines, 0, work);
      && (r.Done? || r == Refused(WorkLimit)) && (work + |printed| <= MAX_WORK ==> r.Done?)
      && (r.Done? ==> && r.value.0 == language && (r.value.1 == body <==> WholeLines(body))
                      && r.value.2 <= |lines| && lines[r.value.2..] == Lines(rest))
  {
    hide Lines, GoodInfo, ParseAt, LongestRun, Unlines, StripCrs, NoLf, NoCrLf, AllTicks, Terminated, BlockFence;
    var info, fence := if language.Some? then language.value else [], BlockFence(body);
    TerminatedEnds(body);
    var raw := LinesOf(Terminated(body));
    FenceFacts(body);
    NoInfo();
    PrintedLines(fence, info, raw, rest);
    assert PrintFenced(language, body) + rest == fence + info + [LF] + Unlines(raw) + fence + [LF] + rest;
    ShortLines(raw, body);
    PrintedParse(fence, info, StripCrs(raw), Lines(rest), work);
    StrippedSame(raw);
    NoCrLfLines(raw);
    EndsInLf(StripCrs(raw), raw, body);
    var front := [fence + info] + StripCrs(raw) + [fence];
    assert (front + Lines(rest))[|StripCrs(raw)| + 2..] == Lines(rest);
  }

  lemma TerminatedEnds(body: seq<byte>)
    ensures Terminated(body) == [] || Terminated(body)[|Terminated(body)| - 1] == LF
    ensures Terminated(body) == body <==> body == [] || body[|body| - 1] == LF
  {}

  lemma FenceFacts(body: seq<byte>)
    ensures AllTicks(BlockFence(body)) && |BlockFence(body)| > LongestRun(body) && BlockFence(body) != []
  {}

  lemma NoInfo()
    ensures GoodInfo([])
  {}

  lemma {:induction false} ShortLines(raw: seq<seq<byte>>, body: seq<byte>)
    requires Unlines(raw) == Terminated(body)
    ensures forall i :: 0 <= i < |StripCrs(raw)| && AllTicks(StripCrs(raw)[i]) ==>
      |StripCrs(raw)[i]| < |BlockFence(body)|
  {
    hide LongestRun, Unlines, AllTicks;
    TerminatedRuns(body);
    FenceFacts(body);
    forall i | 0 <= i < |StripCrs(raw)| && AllTicks(StripCrs(raw)[i])
      ensures |StripCrs(raw)[i]| < |BlockFence(body)|
    {
      TicksInLines(raw, i, StripCrs(raw)[i]);
    }
  }

  // A body without a final line feed comes back with one.
  lemma {:induction false} EndsInLf(stripped: seq<seq<byte>>, raw: seq<seq<byte>>, body: seq<byte>)
    requires |stripped| == |raw| && Unlines(raw) == Terminated(body)
    ensures Unlines(stripped) == body ==> Terminated(body) == body
  {
    if Terminated(body) != body {
      assert raw != [];
      LastIsLf(stripped);
    }
  }

  lemma {:induction false} LastIsLf(lines: seq<seq<byte>>)
    requires lines != []
    ensures Unlines(lines) != [] && Unlines(lines)[|Unlines(lines)| - 1] == LF
  {
    if lines[1..] != [] {
      LastIsLf(lines[1..]);
    }
  }
}
