// What the writer prints, said by what it must avoid: fences as short as they
// may be, padding and brackets only where reading needs them, and the marks it
// refuses (crates/xiaomu-codec-markdown/src/escape.rs, serialize.rs:409-467).
module MarkdownPrinted {
  import opened Wrappers
  import opened Text
  import opened Marks
  import opened MarkdownSyntax
  import opened MarkdownInline
  import opened MarkdownRuns
  import opened MarkdownInlineRules
  import opened MarkdownFence

  // ----- fences

  lemma {:induction false} TrailingIsTicks(text: seq<byte>)
    ensures AllTicks(text[|text| - TrailingRun(text)..])
  {
    var n := TrailingRun(text);
    if n > 0 {
      var k := |text| - 1;
      TrailingIsTicks(text[..k]);
      assert text[|text| - n..] == text[..k][k - (n - 1)..] + [text[k]];
    }
  }

  // The longest run of backticks stands somewhere in the text.
  lemma {:induction false} LongestIsAttained(text: seq<byte>) returns (i: nat)
    ensures i + LongestRun(text) <= |text| && AllTicks(text[i..i + LongestRun(text)])
  {
    i := 0;
    if text != [] {
      var front := text[..|text| - 1];
      if LongestRun(front) >= TrailingRun(text) {
        i := LongestIsAttained(front);
        assert front[i..i + LongestRun(front)] == text[i..i + LongestRun(front)];
      } else {
        i := |text| - TrailingRun(text);
        TrailingIsTicks(text);
        assert text[i..i + LongestRun(text)] == text[i..];
      }
    }
  }

  // The text holds `n` backticks in a row.
  ghost predicate HoldsTicks(text: seq<byte>, n: nat) {
    exists i: nat, j: nat :: i <= j <= |text| && j - i == n && AllTicks(text[i..j])
  }

  // A code fence is the shortest of two or more backticks that the code does not
  // hold, a block's the shortest of three or more.
  lemma {:induction false} FencesAreShortest(text: seq<byte>)
    ensures AllTicks(CodeFence(text)) && AllTicks(BlockFence(text))
    ensures !HoldsTicks(text, |CodeFence(text)|) && !HoldsTicks(text, |BlockFence(text)|)
    ensures |CodeFence(text)| >= 2 && |BlockFence(text)| >= 3
    ensures |CodeFence(text)| > 2 ==> HoldsTicks(text, |CodeFence(text)| - 1)
    ensures |BlockFence(text)| > 3 ==> HoldsTicks(text, |BlockFence(text)| - 1)
  {
    hide LongestRun;
    var i := LongestIsAttained(text);
    var longest := LongestRun(text);
    assert HoldsTicks(text, longest) by {
      assert i <= i + longest <= |text| && AllTicks(text[i..i + longest]);
    }
    forall n: nat | HoldsTicks(text, n)
      ensures n <= longest
    {
      var a: nat, b: nat :| a <= b <= |text| && b - a == n && AllTicks(text[a..b]);
      LongestIsLongest(text, a, b);
    }
  }

  // A code span is padded exactly when a backtick would touch the fence or the
  // reader would take spaces away.
  lemma {:induction false} PaddedWhenNeeded(text: seq<byte>)
    requires text != []
    ensures CodePadding(text) == [] || CodePadding(text) == [0x20]
    ensures CodePadding(text) == [] <==>
      text[0] != 0x60 && text[|text| - 1] != 0x60 && CodeText(text) == text
  {
    CodeTextIs(text);
    if text[0] == SPACE && text[|text| - 1] == SPACE && !AllSpaces(text) {
      assert |text| == 1 ==> text == [SPACE];
      assert |Trimmed(text)| < |text|;
    }
  }

  // ----- targets

  // A destination is wrapped exactly when it is empty or holds a space or an
  // angle bracket, and then every tab and line feed is read back too.
  lemma DestinationForms(destination: seq<byte>)
    ensures Wraps(destination) <==>
      destination == [] || 0x20 in destination || 0x3C in destination || 0x3E in destination
    ensures Readable(destination) <==>
      Wraps(destination) || (0x09 !in destination && 0x0A !in destination)
    ensures PrintDestination(destination)
      == if Wraps(destination) then [0x3C] + Escape(destination, InDestination) + [0x3E]
         else Escape(destination, InDestination)
  {}

  // ----- refused runs

  // The writer prints every run but underlined ones, text styles, and code with
  // other marks than a link or with a line feed.
  lemma RefusedRuns(text: seq<byte>, marks: seq<Mark>)
    requires text != []
    ensures Render(text, marks).None? <==>
      || UnderlineMark in marks
      || (CodeMark in marks && ((exists m :: m in marks && !m.CodeMark? && !m.LinkMark?) || 0x0A in text))
      || (CodeMark !in marks && exists m :: m in marks && m.TextStyleMark?)
  {}

  // Emphasis is printed with italics innermost and bold outermost.
  lemma EmphasisNests(text: seq<byte>, bold: bool, strike: bool, italic: bool, marks: seq<Mark>)
    requires (bold <==> BoldMark in marks) && (strike <==> StrikeMark in marks) && (italic <==> ItalicMark in marks)
    ensures var star: seq<byte> := if italic then [0x2A] else [];
      var tildes: seq<byte> := if strike then [0x7E, 0x7E] else [];
      var stars: seq<byte> := if bold then [0x2A, 0x2A] else [];
      PrintEmphasis(text, marks)
        == stars + (tildes + (star + Escape(text, InText) + star) + tildes) + stars
  {
    var escaped := Escape(text, InText);
    assert [] + escaped + [] == escaped;
    var inner: seq<byte> := if italic then [STAR] + escaped + [STAR] else escaped;
    assert [] + inner + [] == inner;
    var middle: seq<byte> := if strike then [TILDE, TILDE] + inner + [TILDE, TILDE] else inner;
    assert [] + middle + [] == middle;
  }
}
