// What the reader takes for the start of a block, and the text lines the
// writer's escaping keeps it from
// (crates/xiaomu-codec-markdown/src/parse.rs:458-540, escape.rs:1-23).
module MarkdownBlocks {
  import opened Wrappers
  import opened Text
  import opened MarkdownSyntax

  const HASH: byte := 0x23
  const PLUS: byte := 0x2B
  const MINUS: byte := 0x2D
  const DOT: byte := 0x2E
  const EQUALS: byte := 0x3D
  const UNDERSCORE: byte := 0x5F

  predicate IsDigit(b: byte) {
    0x30 <= b <= 0x39
  }

  // How often a text starts with one byte.
  function LeadRun(text: seq<byte>, b: byte): (n: nat)
    ensures n <= |text|
  {
    if text != [] && text[0] == b then 1 + LeadRun(text[1..], b) else 0
  }

  function LeadDigits(text: seq<byte>): (n: nat)
    ensures n <= |text|
  {
    if text != [] && IsDigit(text[0]) then 1 + LeadDigits(text[1..]) else 0
  }

  predicate All(text: seq<byte>, b: byte) {
    forall i :: 0 <= i < |text| ==> text[i] == b
  }

  // Nothing or a space follows.
  predicate Ends(text: seq<byte>) {
    text == [] || text[0] == SPACE
  }

  // `heading_marker`: level and text.
  function HeadingMarker(text: seq<byte>): Option<(nat, seq<byte>)> {
    var level := LeadRun(text, HASH);
    if level == 0 || level > 6 || !Ends(text[level..]) then None
    else Some((level, if text[level..] == [] then [] else text[level + 1..]))
  }

  function Hashes(level: nat): (r: seq<byte>)
    ensures |r| == level && forall i :: 0 <= i < level ==> r[i] == HASH
  {
    seq(level, i => HASH)
  }

  lemma {:induction false} RunOfHashes(level: nat, rest: seq<byte>)
    requires rest == [] || rest[0] != HASH
    ensures LeadRun(Hashes(level) + rest, HASH) == level
  {
    var text := Hashes(level) + rest;
    if level > 0 {
      RunOfHashes(level - 1, rest);
      assert text[1..] == Hashes(level - 1) + rest;
    } else {
      assert text == rest;
    }
  }

  // One to six hashes head a line of their own or, after a space, a text; seven
  // or none do not.
  lemma {:induction false} HeadingForms(level: nat, rest: seq<byte>)
    requires rest == [] || rest[0] != HASH
    ensures HeadingMarker(Hashes(level) + rest)
      == if 1 <= level <= 6 && rest == [] then Some((level, []))
         else if 1 <= level <= 6 && rest[0] == 0x20 then Some((level, rest[1..]))
         else None
  {
    RunOfHashes(level, rest);
    var text := Hashes(level) + rest;
    assert text[level..] == rest;
    assert rest != [] ==> text[level + 1..] == rest[1..];
  }

  // `thematic_break`.
  predicate ThematicBreak(text: seq<byte>) {
    || text == [STAR, STAR, STAR] || text == [UNDERSCORE, UNDERSCORE, UNDERSCORE]
    || (|text| >= 3 && All(text, MINUS)) || (|text| > 3 && All(text, STAR))
  }

  // `setext_underline`: refused below a paragraph's first line.
  predicate SetextUnderline(text: seq<byte>) {
    |text| >= 3 && (All(text, MINUS) || All(text, EQUALS))
  }

  // `fence_run`.
  function FenceRun(text: seq<byte>): Option<nat> {
    if LeadRun(text, BACKTICK) >= 3 then Some(LeadRun(text, BACKTICK)) else None
  }

  datatype ListMarker = ListMarker(ordered: bool, width: nat)

  // `list_marker`.
  function ReadListMarker(text: seq<byte>): Option<ListMarker> {
    if text == [] then None
    else if text[0] == MINUS || text[0] == STAR || text[0] == PLUS then
      if Ends(text[1..]) then Some(ListMarker(false, 2)) else None
    else
      var digits := LeadDigits(text);
      var rest := text[digits..];
      if 0 < digits <= 9 && rest != [] && (rest[0] == DOT || rest[0] == CLOSE_PAREN) && Ends(rest[1..])
      then Some(ListMarker(true, digits + 2)) else None
  }

  // The blocks that begin at a line, or end a paragraph above it.
  predicate OpensBlock(text: seq<byte>) {
    || HeadingMarker(text).Some? || ThematicBreak(text) || FenceRun(text).Some? || ReadListMarker(text).Some?
    || (text != [] && text[0] == CLOSE_ANGLE) || (|text| >= 2 && text[0] == BANG && text[1] == OPEN_BRACKET)
  }

  // ----- escaped lines

  // One to nine digits and a closing parenthesis, at the end or before a space.
  predicate NumberedByParenthesis(text: seq<byte>) {
    var digits := LeadDigits(text);
    && 0 < digits <= 9 && digits < |text| && text[digits] == CLOSE_PAREN && Ends(text[digits + 1..])
  }

  lemma EscapeStarts(text: seq<byte>)
    requires text != []
    ensures Escape(text, InText) != []
    ensures Escape(text, InText)[0] == if Escapes.InText.Has(text[0]) then BACKSLASH else text[0]
    ensures !Escapes.InText.Has(text[0]) ==> Escape(text, InText)[1..] == Escape(text[1..], InText)
  {}

  lemma {:induction false} EscapedDigits(text: seq<byte>)
    ensures LeadDigits(Escape(text, InText)) == LeadDigits(text)
    ensures Escape(text, InText)[LeadDigits(text)..] == Escape(text[LeadDigits(text)..], InText)
  {
    hide Escape;
    if text != [] {
      EscapeStarts(text);
      if IsDigit(text[0]) {
        EscapedDigits(text[1..]);
        var n, escaped := LeadDigits(text[1..]), Escape(text, InText);
        assert escaped[n + 1..] == escaped[1..][n..] && text[1..][n..] == text[n + 1..];
      }
    } else {
      assert Escape([], InText) == [] by { NothingEscaped(); }
    }
  }

  lemma NothingEscaped()
    ensures Escape([], InText) == []
  {}

  lemma EscapedEnds(text: seq<byte>)
    ensures Ends(Escape(text, InText)) <==> Ends(text)
  {
    hide Escape;
    NothingEscaped();
    if text != [] {
      EscapeStarts(text);
    }
  }

  // Escaping is not enough: a line of text is read as a block exactly when it
  // counts with a parenthesis, which is not among the escaped bytes.
  lemma {:induction false} EscapedOpens(text: seq<byte>)
    ensures OpensBlock(Escape(text, InText)) <==> NumberedByParenthesis(text)
  {
    hide Escape, LeadDigits;
    NothingEscaped();
    EscapedDigits(text);
    if text != [] {
      EscapeStarts(text);
      OpensByNumber(Escape(text, InText));
      var digits := LeadDigits(text);
      if digits < |text| {
        EscapeStarts(text[digits..]);
        EscapedEnds(text[digits..][1..]);
        assert text[digits..][1..] == text[digits + 1..];
      }
    }
  }

  // With none of the reader's own bytes in front only a number opens a block.
  lemma OpensByNumber(line: seq<byte>)
    requires line != [] && (line[0] == BACKSLASH || !Escapes.InText.Has(line[0]))
    ensures OpensBlock(line) <==>
      var digits := LeadDigits(line); var rest := line[digits..];
      0 < digits <= 9 && rest != [] && (rest[0] == DOT || rest[0] == CLOSE_PAREN) && Ends(rest[1..])
  {
    hide LeadDigits;
  }

  // The documented promise fails: this text comes back as an ordered list.
  lemma EscapedListStaysList()
    ensures var text := [0x31, CLOSE_PAREN, SPACE, 0x78];
      && Escape(text, InText) == text && ReadListMarker(Escape(text, InText)) == Some(ListMarker(true, 3))
  {
    var text: seq<byte> := [0x31, CLOSE_PAREN, SPACE, 0x78];
    EscapeStarts(text);
    EscapeStarts(text[1..]);
    EscapeStarts(text[2..]);
    EscapeStarts(text[3..]);
    assert text[3..][1..] == [];
    assert LeadDigits(text[1..]) == 0;
  }

  lemma {:induction false} EscapedAll(text: seq<byte>, b: byte)
    requires !Escapes.InText.Has(b)
    ensures All(Escape(text, InText), b) <==> All(text, b)
    ensures All(text, b) ==> |Escape(text, InText)| == |text|
  {
    hide Escape;
    NothingEscaped();
    if text != [] {
      EscapeStarts(text);
      EscapedAll(text[1..], b);
      var escaped := Escape(text, InText);
      if All(escaped, b) {
        assert escaped[0] == b;
        assert forall i :: 0 <= i < |text[1..]| ==> text[1..][i] == text[i + 1];
        assert forall i :: 0 <= i < |escaped[1..]| ==> escaped[1..][i] == escaped[i + 1];
      }
      if All(text, b) {
        assert forall i :: 0 < i < |escaped| ==> escaped[i] == escaped[1..][i - 1];
      }
    }
  }

  // Below the first line of a paragraph a line of equals signs is refused.
  lemma {:induction false} EscapedUnderlines(text: seq<byte>)
    ensures SetextUnderline(Escape(text, InText)) <==> |text| >= 3 && All(text, EQUALS)
  {
    hide Escape;
    NothingEscaped();
    EscapedAll(text, EQUALS);
    if text != [] {
      EscapeStarts(text);
    }
  }
}
