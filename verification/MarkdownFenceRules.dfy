// Fences read from any lines, said by positions: which lines belong to the
// block, what is stripped from them, and when reading fails
// (crates/xiaomu-codec-markdown/src/parse.rs:177-224, 575-591).
module MarkdownFenceRules {
  import opened Wrappers
  import opened Text
  import opened MarkdownSyntax
  import opened MarkdownInline
  import opened MarkdownRuns
  import opened MarkdownGrammar
  import opened MarkdownFence

  // ----- lines

  // The lines of a source: those it terminates and, when there is more, what is
  // left, each without its carriage return.
  lemma {:induction false} LinesOfSource(lines: seq<seq<byte>>, last: seq<byte>)
    requires NoLf(lines) && LF !in last
    ensures Lines(Unlines(lines) + last)
      == StripCrs(lines) + if last == [] || last == [CR] then [] else [StripCr(last)]
  {
    hide SplitLf, Unlines;
    SplitUnlines(lines, last);
    OneLine(last);
    assert StripCrs(lines + [last]) == StripCrs(lines) + [StripCr(last)];
    assert (StripCrs(lines) + [StripCr(last)])[..|lines|] == StripCrs(lines);
  }

  lemma OneLine(last: seq<byte>)
    requires LF !in last
    ensures SplitLf(last) == [last]
  {
    NoneFound(last, 0);
  }

  lemma {:induction false} NoneFound(text: seq<byte>, i: nat)
    requires LF !in text && i <= |text|
    ensures IndexOf(text, i, LF) == |text|
    decreases |text| - i
  {
    if i < |text| {
      NoneFound(text, i + 1);
    }
  }

  // ----- white space

  // The scalar value at the start of well-formed text (RFC 3629 section 3).
  function CodePoint(s: seq<byte>): nat
    requires ScalarLen(s) > 0
  {
    var n := ScalarLen(s);
    if n == 1 then s[0] as nat
    else if n == 2 then (s[0] as nat - 0xC0) * 64 + (s[1] as nat - 0x80)
    else if n == 3 then (s[0] as nat - 0xE0) * 4096 + (s[1] as nat - 0x80) * 64 + (s[2] as nat - 0x80)
    else (s[0] as nat - 0xF0) * 262144 + (s[1] as nat - 0x80) * 4096 + (s[2] as nat - 0x80) * 64
         + (s[3] as nat - 0x80)
  }

  // `char::is_whitespace`: the Unicode property White_Space.
  predicate IsWhiteSpace(point: nat) {
    || 0x9 <= point <= 0xD || point == 0x20 || point == 0x85 || point == 0xA0 || point == 0x1680
    || 0x2000 <= point <= 0x200A || point == 0x2028 || point == 0x2029 || point == 0x202F || point == 0x205F
    || point == 0x3000
  }

  // The byte patterns are the white-space characters.
  lemma SpacesAreWhiteSpace(s: seq<byte>, i: nat)
    requires i < |s| && ScalarLen(s[i..]) > 0
    ensures SpaceAt(s, i) <==> IsWhiteSpace(CodePoint(s[i..]))
  {
    var t := s[i..];
    assert t[0] == s[i] && (i + 1 < |s| ==> t[1] == s[i + 1]) && (i + 2 < |s| ==> t[2] == s[i + 2]);
  }

  // Fence info is one word without backticks: no white-space character starts in it.
  lemma {:induction false} InfoRule(info: seq<byte>)
    requires ValidUtf8(info)
    ensures GoodInfo(info) <==>
      && 0x60 !in info
      && forall i :: 0 <= i < |info| && IsBoundary(info, i) ==>
        ScalarLen(info[i..]) > 0 && !IsWhiteSpace(CodePoint(info[i..]))
  {
    hide ValidUtf8, ScalarLen, CodePoint, IsWhiteSpace, SpaceAt;
    forall i | 0 <= i < |info| && IsBoundary(info, i)
      ensures ScalarLen(info[i..]) > 0
      ensures SpaceAt(info, i) <==> IsWhiteSpace(CodePoint(info[i..]))
    {
      CutValid(info, i);
      ValidStarts(info[i..]);
      SpacesAreWhiteSpace(info, i);
    }
    forall i | 0 <= i < |info| && SpaceAt(info, i)
      ensures IsBoundary(info, i)
    {
      SpacesLead(info, i);
    }
  }

  lemma ValidStarts(s: seq<byte>)
    requires ValidUtf8(s) && s != []
    ensures ScalarLen(s) > 0
  {}

  lemma SpacesLead(s: seq<byte>, i: nat)
    requires i < |s| && SpaceAt(s, i)
    ensures IsBoundary(s, i)
  {}

  // ----- indentation

  // Spaces count one column and tabs four.
  function Columns(blanks: seq<byte>): nat {
    if blanks == [] then 0 else Columns(blanks[..|blanks| - 1]) + if blanks[|blanks| - 1] == TAB then 4 else 1
  }

  lemma {:induction false} ColumnsConcat(a: seq<byte>, b: seq<byte>)
    ensures Columns(a + b) == Columns(a) + Columns(b)
  {
    if b == [] {
      assert a + b == a;
    } else {
      var n := |b| - 1;
      ColumnsConcat(a, b[..n]);
      assert (a + b)[..|a + b| - 1] == a + b[..n];
    }
  }

  lemma ColumnsOne(b: byte)
    ensures Columns([b]) == if b == TAB then 4 else 1
  {
    assert [b][..0] == [];
  }

  // A line's indentation is the width of its leading blanks.
  lemma {:induction false} IndentIsColumns(line: seq<byte>)
    ensures Indent(line) == Columns(line[..SkipBlanks(line)])
  {
    hide Columns;
    if SkipBlanks(line) > 0 {
      IndentIsColumns(line[1..]);
      ColumnsOne(line[0]);
      ColumnsConcat([line[0]], line[1..][..SkipBlanks(line[1..])]);
      assert line[..SkipBlanks(line)] == [line[0]] + line[1..][..SkipBlanks(line[1..])];
    } else {
      assert line[..0] == [] && Columns([]) == 0 by { NoColumns(); }
    }
  }

  lemma NoColumns()
    ensures Columns([]) == 0
  {}

  // The least stretch of leading blanks that uses up the columns, or all of them.
  lemma {:induction false} StripsColumns(line: seq<byte>, consumed: nat, columns: nat)
    ensures var stripped := StripFrom(line, consumed, columns); var k := |line| - |stripped|;
      && 0 <= k <= SkipBlanks(line) && stripped == line[k..]
      && (k > 0 ==> consumed + Columns(line[..k - 1]) < columns)
      && (consumed + Columns(line[..k]) >= columns || k == SkipBlanks(line))
  {
    hide Columns;
    NoColumns();
    if line != [] && consumed < columns && (line[0] == SPACE || line[0] == TAB) {
      var width := if line[0] == TAB then 4 else 1;
      StripsColumns(line[1..], consumed + width, columns);
      var k := |line[1..]| - |StripFrom(line[1..], consumed + width, columns)|;
      ColumnsOne(line[0]);
      ColumnsConcat([line[0]], line[1..][..k]);
      assert line[..k + 1] == [line[0]] + line[1..][..k] && line[k + 1..] == line[1..][k..];
      if k > 0 {
        ColumnsConcat([line[0]], line[1..][..k - 1]);
        assert line[..k] == [line[0]] + line[1..][..k - 1];
      } else {
        assert line[..k] == [];
      }
    } else {
      assert line[..0] == [] && line[0..] == line;
    }
  }

  // ----- the lines of a block

  // The line closes a fence of `len` backticks.
  predicate ClosesAt(lines: seq<seq<byte>>, k: nat, indent: nat, len: nat) {
    k < |lines| && |FenceContent(lines[k], indent)| >= len && AllTicks(FenceContent(lines[k], indent))
  }

  predicate NoneCloses(lines: seq<seq<byte>>, from: nat, to: nat, indent: nat, len: nat) {
    forall k :: from <= k < to ==> !ClosesAt(lines, k, indent, len)
  }

  // Work spent on the lines from `from` up to `to`.
  function Spent(lines: seq<seq<byte>>, from: nat, to: nat): nat
    requires from <= to <= |lines|
  {
    if from == to then 0 else Spent(lines, from, to - 1) + |lines[to - 1]|
  }

  lemma {:induction false} SpentFirst(lines: seq<seq<byte>>, from: nat, to: nat)
    requires from < to <= |lines|
    ensures Spent(lines, from, to) == |lines[from]| + Spent(lines, from + 1, to)
  {
    if from + 1 < to {
      SpentFirst(lines, from, to - 1);
    }
  }

  lemma {:induction false} SpentGrows(lines: seq<seq<byte>>, from: nat, mid: nat, to: nat)
    requires from <= mid <= to <= |lines|
    ensures Spent(lines, from, mid) <= Spent(lines, from, to)
  {
    if mid < to {
      SpentGrows(lines, from, mid, to - 1);
    }
  }

  function Contents(lines: seq<seq<byte>>, from: nat, to: nat, indent: nat): (r: seq<seq<byte>>)
    requires from <= to <= |lines|
    ensures |r| == to - from
  {
    seq(to - from, i requires 0 <= i < to - from => FenceContent(lines[from + i], indent))
  }

  // The block ends after the first closing line, read while the work allows.
  predicate BodyIs(lines: seq<seq<byte>>, pos: nat, indent: nat, len: nat, work: nat, close: nat) {
    && pos <= close && ClosesAt(lines, close, indent, len) && NoneCloses(lines, pos, close, indent, len)
    && work + Spent(lines, pos, close + 1) <= MAX_WORK
  }

  lemma {:induction false} BodyFound(lines: seq<seq<byte>>, pos: nat, indent: nat, len: nat, work: nat)
    ensures var r := ReadBody(lines, pos, indent, len, work);
      r.Done? ==>
        && 0 < r.value.1 <= |lines| && BodyIs(lines, pos, indent, len, work, r.value.1 - 1)
        && r.value.0 == Contents(lines, pos, r.value.1 - 1, indent)
    decreases |lines| - pos
  {
    hide FenceContent, AllTicks, Spent;
    var r := ReadBody(lines, pos, indent, len, work);
    if r.Done? {
      if ClosesAt(lines, pos, indent, len) {
        SpentOne(lines, pos);
      } else {
        BodyFound(lines, pos + 1, indent, len, work + |lines[pos]|);
        SpentFirst(lines, pos, r.value.1);
        var close := r.value.1 - 1;
        assert Contents(lines, pos, close, indent)
          == [FenceContent(lines[pos], indent)] + Contents(lines, pos + 1, close, indent);
      }
    }
  }

  lemma SpentOne(lines: seq<seq<byte>>, pos: nat)
    requires pos < |lines|
    ensures Spent(lines, pos, pos + 1) == |lines[pos]|
  {
    assert Spent(lines, pos, pos) == 0;
  }

  lemma {:induction false} BodyRead(lines: seq<seq<byte>>, pos: nat, indent: nat, len: nat, work: nat, close: nat)
    requires BodyIs(lines, pos, indent, len, work, close)
    ensures ReadBody(lines, pos, indent, len, work) == Done((Contents(lines, pos, close, indent), close + 1))
    decreases close - pos
  {
    hide FenceContent, AllTicks, Spent;
    SpentFirst(lines, pos, close + 1);
    if pos < close {
      assert !ClosesAt(lines, pos, indent, len);
      assert NoneCloses(lines, pos + 1, close, indent, len);
      BodyRead(lines, pos + 1, indent, len, work + |lines[pos]|, close);
      assert Contents(lines, pos, close, indent)
        == [FenceContent(lines[pos], indent)] + Contents(lines, pos + 1, close, indent);
    } else {
      assert Contents(lines, pos, close, indent) == [];
    }
  }

  // Running out of lines and running out of work are told apart by which comes first.
  lemma {:induction false} BodyRefused(lines: seq<seq<byte>>, pos: nat, indent: nat, len: nat, work: nat)
    requires pos <= |lines| && work <= MAX_WORK && ReadBody(lines, pos, indent, len, work).Refused?
    ensures ReadBody(lines, pos, indent, len, work).error
      == if work + Spent(lines, pos, |lines|) <= MAX_WORK then UnclosedFence else WorkLimit
    ensures work + Spent(lines, pos, |lines|) <= MAX_WORK ==> NoneCloses(lines, pos, |lines|, indent, len)
    decreases |lines| - pos
  {
    hide FenceContent, AllTicks, Spent;
    NothingSpent(lines);
    if pos < |lines| {
      SpentFirst(lines, pos, |lines|);
      if work + |lines[pos]| <= MAX_WORK {
        BodyRefused(lines, pos + 1, indent, len, work + |lines[pos]|);
      }
    }
  }

  lemma NothingSpent(lines: seq<seq<byte>>)
    ensures Spent(lines, |lines|, |lines|) == 0
  {}

  // Line `close` ends the block that the fence `text` on line `pos` opens.
  predicate FenceEnds(lines: seq<seq<byte>>, pos: nat, indent: nat, text: seq<byte>, work: nat, close: nat) {
    GoodInfo(text[TickRun(text, 0)..]) && BodyIs(lines, pos + 1, indent, TickRun(text, 0), work, close)
  }

  lemma EndsWithin(lines: seq<seq<byte>>, pos: nat, indent: nat, text: seq<byte>, work: nat, close: nat)
    requires FenceEnds(lines, pos, indent, text, work, close)
    ensures pos < close < |lines|
  {}

  lemma {:induction false} FenceRead(lines: seq<seq<byte>>, pos: nat, indent: nat, text: seq<byte>, work: nat,
                                     close: nat)
    requires FenceEnds(lines, pos, indent, text, work, close)
    ensures pos < close < |lines|
    ensures var info := text[TickRun(text, 0)..];
      ParseFence(lines, pos, indent, text, work)
      == Done((if info == [] then None else Some(info), Unlines(Contents(lines, pos + 1, close, indent)), close + 1))
  {
    hide ReadBody, GoodInfo, TickRun, Contents, BodyIs, Unlines;
    EndsWithin(lines, pos, indent, text, work, close);
    BodyRead(lines, pos + 1, indent, TickRun(text, 0), work, close);
  }

  // A fence is read exactly when its info is one word and some later line closes
  // it within the work; the body is what lies between, stripped (FenceRead).
  lemma {:induction false} FenceRule(lines: seq<seq<byte>>, pos: nat, indent: nat, text: seq<byte>, work: nat)
    requires pos < |lines|
    ensures ParseFence(lines, pos, indent, text, work).Done? <==>
      exists close: nat :: FenceEnds(lines, pos, indent, text, work, close)
    ensures work <= MAX_WORK && ParseFence(lines, pos, indent, text, work).Refused? ==>
      ParseFence(lines, pos, indent, text, work).error
      == if !GoodInfo(text[TickRun(text, 0)..]) then BadFenceInfo
         else if work + Spent(lines, pos + 1, |lines|) <= MAX_WORK then UnclosedFence
         else WorkLimit
  {
    hide ReadBody, GoodInfo, TickRun, Contents, Spent, BodyIs, Unlines;
    var len := TickRun(text, 0);
    var body := ReadBody(lines, pos + 1, indent, len, work);
    BodyFound(lines, pos + 1, indent, len, work);
    if body.Done? && GoodInfo(text[len..]) {
      assert FenceEnds(lines, pos, indent, text, work, body.value.1 - 1);
    } else if body.Refused? && work <= MAX_WORK {
      BodyRefused(lines, pos + 1, indent, len, work);
    }
    if close: nat :| FenceEnds(lines, pos, indent, text, work, close) {
      FenceRead(lines, pos, indent, text, work, close);
    }
  }
}
