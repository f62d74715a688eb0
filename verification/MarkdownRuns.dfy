// Printed runs and what the scanner reads back from them
// (crates/xiaomu-codec-markdown/src/serialize.rs, escape.rs, inline.rs).
module MarkdownRuns {
  import opened Wrappers
  import opened Text
  import opened Marks
  import opened MarkdownSyntax
  import opened MarkdownInline

  // ----- printing

  function Ticks(n: nat): (r: seq<byte>)
    ensures |r| == n && forall i :: 0 <= i < n ==> r[i] == BACKTICK
  {
    seq(n, i => BACKTICK)
  }

  // Backticks at the end of a text.
  function TrailingRun(text: seq<byte>): (n: nat)
    ensures n <= |text|
  {
    if text == [] || text[|text| - 1] != BACKTICK then 0 else 1 + TrailingRun(text[..|text| - 1])
  }

  function LongestRun(text: seq<byte>): nat {
    if text == [] then 0
    else if LongestRun(text[..|text| - 1]) >= TrailingRun(text) then LongestRun(text[..|text| - 1])
    else TrailingRun(text)
  }

  // `longest_backtick_run`.
  method LongestBacktickRun(content: seq<byte>) returns (longest: nat)
    ensures longest == LongestRun(content)
  {
    longest := 0;
    var current := 0;
    for i := 0 to |content|
      invariant current == TrailingRun(content[..i]) && longest == LongestRun(content[..i])
    {
      assert content[..i + 1][..i] == content[..i];
      if content[i] == BACKTICK {
        current := current + 1;
        longest := if longest >= current then longest else current;
      } else {
        current := 0;
      }
    }
    assert content[..|content|] == content;
  }

  predicate AllTicks(text: seq<byte>) {
    forall i :: 0 <= i < |text| ==> text[i] == BACKTICK
  }

  lemma {:induction false} TrailingTicks(text: seq<byte>, n: nat)
    requires n <= |text| && AllTicks(text[|text| - n..])
    ensures TrailingRun(text) >= n
  {
    if n > 0 {
      var k := |text| - 1;
      assert text[k] == text[|text| - n..][n - 1];
      assert text[..k][k - (n - 1)..] == text[|text| - n..][..n - 1];
      TrailingTicks(text[..k], n - 1);
    }
  }

  // No run of backticks is longer.
  lemma {:induction false} LongestIsLongest(text: seq<byte>, i: nat, j: nat)
    requires i <= j <= |text| && AllTicks(text[i..j])
    ensures j - i <= LongestRun(text)
  {
    if j < |text| {
      assert text[..|text| - 1][i..j] == text[i..j];
      LongestIsLongest(text[..|text| - 1], i, j);
    } else if text != [] {
      assert text[|text| - (j - i)..] == text[i..j];
      TrailingTicks(text, j - i);
    }
  }

  // `code_span_fence`.
  function CodeFence(text: seq<byte>): seq<byte> {
    Ticks((if LongestRun(text) > 1 then LongestRun(text) else 1) + 1)
  }

  function CodePadding(text: seq<byte>): seq<byte>
    requires text != []
  {
    var first, last := text[0], text[|text| - 1];
    if first == BACKTICK || last == BACKTICK || (first == SPACE && last == SPACE && !AllSpaces(text)) then [SPACE]
      else []
  }

  function PrintCode(text: seq<byte>): seq<byte>
    requires text != []
  {
    CodeFence(text) + CodePadding(text) + text + CodePadding(text) + CodeFence(text)
  }

  function LinkOf(marks: seq<Mark>): (r: Option<Mark>)
    ensures r.Some? ==> r.value in marks && r.value.LinkMark?
    ensures r.None? ==> forall m :: m in marks ==> !m.LinkMark?
  {
    if marks == [] then None
    else if marks[0].LinkMark? then Some(marks[0])
    else
      assert marks == [marks[0]] + marks[1..];
      LinkOf(marks[1..])
  }

  function LinkTail(link: Option<Mark>): seq<byte>
    requires link.Some? ==> link.value.LinkMark?
  {
    if link.None? then [] else [CLOSE_BRACKET] + ([OPEN_PAREN] + PrintTarget(link.value.href, link.value.title))
  }

  // `wrap_link`, when there is a link.
  function WrapLink(inner: seq<byte>, link: Option<Mark>): seq<byte>
    requires link.Some? ==> link.value.LinkMark?
  {
    (if link.None? then [] else [OPEN_BRACKET]) + (inner + LinkTail(link))
  }

  function PrintEmphasis(text: seq<byte>, marks: seq<Mark>): seq<byte> {
    var escaped := Escape(text, InText);
    var italic := if ItalicMark in marks then [STAR] + escaped + [STAR] else escaped;
    var strike := if StrikeMark in marks then [TILDE, TILDE] + italic + [TILDE, TILDE] else italic;
    if BoldMark in marks then [STAR, STAR] + strike + [STAR, STAR] else strike
  }

  predicate OnlyCodeAndLink(marks: seq<Mark>) {
    forall m :: m in marks ==> m.CodeMark? || m.LinkMark?
  }

  predicate HasTextStyle(marks: seq<Mark>) {
    exists m :: m in marks && m.TextStyleMark?
  }

  // `render_run`, its lines joined again; none where it refuses a mark.
  function Render(text: seq<byte>, marks: seq<Mark>): Option<seq<byte>>
    requires text != []
  {
    if UnderlineMark in marks then None
    else if CodeMark in marks then
      if !OnlyCodeAndLink(marks) || LF in text then None else Some(WrapLink(PrintCode(text), LinkOf(marks)))
    else if HasTextStyle(marks) then None
    else Some(WrapLink(PrintEmphasis(text, marks), LinkOf(marks)))
  }

  // ----- tokens in reading order

  function Only(present: bool, token: EmphToken): seq<EmphToken> {
    if present then [token] else []
  }

  function OpenersOf(bold: bool, strike: bool, italic: bool): seq<EmphToken> {
    Only(bold, BoldToken) + (Only(strike, StrikeToken) + Only(italic, ItalicToken))
  }

  // Of three stars the first two are read together.
  function ClosersOf(bold: bool, strike: bool, italic: bool): seq<EmphToken> {
    if bold && italic && !strike then [BoldToken, ItalicToken]
    else Only(italic, ItalicToken) + (Only(strike, StrikeToken) + Only(bold, BoldToken))
  }

  function Openers(marks: seq<Mark>): seq<EmphToken> {
    OpenersOf(BoldMark in marks, StrikeMark in marks, ItalicMark in marks)
  }

  function Closers(marks: seq<Mark>): seq<EmphToken> {
    ClosersOf(BoldMark in marks, StrikeMark in marks, ItalicMark in marks)
  }

  function Literals(tokens: seq<EmphToken>): seq<byte> {
    if tokens == [] then [] else tokens[0].Literal() + Literals(tokens[1..])
  }

  function AsMarks(tokens: seq<EmphToken>): (r: seq<Mark>)
    ensures |r| == |tokens| && forall i :: 0 <= i < |r| ==> r[i] == tokens[i].AsMark()
  {
    seq(|tokens|, i requires 0 <= i < |tokens| => tokens[i].AsMark())
  }

  // Each token at most once, and the single star only next to the text.
  predicate Opening(tokens: seq<EmphToken>) {
    tokens == []
    || (tokens[0] !in tokens[1..] && (tokens[0].ItalicToken? ==> tokens[1..] == []) && Opening(tokens[1..]))
  }

  predicate StartsNoStar(text: seq<byte>) {
    text == [] || text[0] != STAR
  }

  // No star follows a single star.
  predicate Tokenizes(tokens: seq<EmphToken>, rest: seq<byte>) {
    tokens == []
    || ((tokens[0].ItalicToken? ==> StartsNoStar(Literals(tokens[1..]) + rest)) && Tokenizes(tokens[1..], rest))
  }

  lemma {:induction false} LiteralsConcat(a: seq<EmphToken>, b: seq<EmphToken>)
    ensures Literals(a + b) == Literals(a) + Literals(b)
  {
    if a == [] {
      assert a + b == b;
    } else {
      assert (a + b)[1..] == a[1..] + b;
      LiteralsConcat(a[1..], b);
    }
  }

  lemma LiteralsOnly(present: bool, token: EmphToken)
    ensures Literals(Only(present, token)) == if present then token.Literal() else []
  {
    assert [token][1..] == [];
    assert token.Literal() + [] == token.Literal();
  }

  lemma {:induction false} TokenLiterals(bold: bool, strike: bool, italic: bool)
    ensures var b, s, i := Literals(Only(bold, BoldToken)), Literals(Only(strike, StrikeToken)),
        Literals(Only(italic, ItalicToken));
      Literals(OpenersOf(bold, strike, italic)) == b + (s + i)
        && Literals(ClosersOf(bold, strike, italic)) == i + (s + b)
  {
    hide Literals, Only;
    LiteralsConcat(Only(strike, StrikeToken), Only(italic, ItalicToken));
    LiteralsConcat(Only(bold, BoldToken), Only(strike, StrikeToken) + Only(italic, ItalicToken));
    if bold && italic && !strike {
      ThreeStars();
      LiteralsOnly(true, BoldToken);
      LiteralsOnly(false, StrikeToken);
      LiteralsOnly(true, ItalicToken);
    } else {
      LiteralsConcat(Only(strike, StrikeToken), Only(bold, BoldToken));
      LiteralsConcat(Only(italic, ItalicToken), Only(strike, StrikeToken) + Only(bold, BoldToken));
    }
  }

  lemma ThreeStars()
    ensures Literals([BoldToken, ItalicToken]) == [STAR, STAR, STAR]
  {
    assert [BoldToken, ItalicToken][1..] == [ItalicToken];
    assert [ItalicToken][1..] == [];
  }

  lemma Nested(b: seq<byte>, s: seq<byte>, i: seq<byte>, e: seq<byte>)
    ensures b + (s + (i + e + i) + s) + b == (b + (s + i)) + (e + (i + (s + b)))
  {}

  lemma NoDelimiter(e: seq<byte>)
    ensures [] + e + [] == e
  {}

  lemma {:induction false} EmphasisTokens(text: seq<byte>, marks: seq<Mark>)
    ensures PrintEmphasis(text, marks) == Literals(Openers(marks)) + (Escape(text, InText) + Literals(Closers(marks)))
  {
    hide Escape, Literals, Only, OpenersOf, ClosersOf;
    var bold, strike, italic := BoldMark in marks, StrikeMark in marks, ItalicMark in marks;
    TokenLiterals(bold, strike, italic);
    LiteralsOnly(bold, BoldToken);
    LiteralsOnly(strike, StrikeToken);
    LiteralsOnly(italic, ItalicToken);
    var e := Escape(text, InText);
    var b, s, i := Literals(Only(bold, BoldToken)), Literals(Only(strike, StrikeToken)),
        Literals(Only(italic, ItalicToken));
    NoDelimiter(e);
    NoDelimiter(i + e + i);
    NoDelimiter(s + (i + e + i) + s);
    Nested(b, s, i, e);
  }

  lemma OpenersOpen(bold: bool, strike: bool, italic: bool)
    ensures Opening(OpenersOf(bold, strike, italic))
  {
    var rest := Only(strike, StrikeToken) + Only(italic, ItalicToken);
    assert Opening(rest) && BoldToken !in rest by {
      assert italic ==> [ItalicToken][1..] == [];
      assert strike ==> rest[1..] == Only(italic, ItalicToken);
    }
    assert bold ==> OpenersOf(bold, strike, italic)[1..] == rest;
    assert !bold ==> OpenersOf(bold, strike, italic) == rest;
  }

  lemma SwapMultiset<T>(a: seq<T>, b: seq<T>, c: seq<T>)
    ensures multiset(a + (b + c)) == multiset(c + (b + a))
  {}

  lemma SameTokens(bold: bool, strike: bool, italic: bool)
    ensures multiset(OpenersOf(bold, strike, italic)) == multiset(ClosersOf(bold, strike, italic))
  {
    if bold && italic && !strike {
      assert OpenersOf(true, false, true) == [BoldToken, ItalicToken];
    } else {
      SwapMultiset(Only(bold, BoldToken), Only(strike, StrikeToken), Only(italic, ItalicToken));
    }
  }

  lemma CloserMembers(bold: bool, strike: bool, italic: bool)
    ensures var closers := ClosersOf(bold, strike, italic);
      (BoldToken in closers <==> bold) && (StrikeToken in closers <==> strike) && (ItalicToken in closers <==> italic)
  {}

  lemma {:induction false} TokenizesCons(token: EmphToken, tokens: seq<EmphToken>, rest: seq<byte>)
    requires Tokenizes(tokens, rest) && (token.ItalicToken? ==> StartsNoStar(Literals(tokens) + rest))
    ensures Tokenizes([token] + tokens, rest)
  {
    assert ([token] + tokens)[1..] == tokens;
  }

  lemma {:induction false} ClosersTokenize(bold: bool, strike: bool, italic: bool, rest: seq<byte>)
    requires StartsNoStar(rest)
    ensures Tokenizes(ClosersOf(bold, strike, italic), rest)
  {
    hide Tokenizes, Literals;
    TokenizesNothing(rest);
    if bold && italic && !strike {
      TokenizesCons(ItalicToken, [], rest);
      assert [ItalicToken] + [] == [ItalicToken];
      TokenizesCons(BoldToken, [ItalicToken], rest);
      assert [BoldToken] + [ItalicToken] == [BoldToken, ItalicToken];
    } else {
      var b, s := Only(bold, BoldToken), Only(strike, StrikeToken);
      assert bold ==> b == [BoldToken] + [];
      if bold {
        TokenizesCons(BoldToken, [], rest);
      }
      if strike {
        TokenizesCons(StrikeToken, b, rest);
        assert [StrikeToken] + b == s + b;
      } else {
        assert s + b == b;
      }
      if italic {
        LiteralsConcat(s, b);
        LiteralsOnly(strike, StrikeToken);
        LiteralsOnly(bold, BoldToken);
        assert StartsNoStar(Literals(s + b) + rest);
        TokenizesCons(ItalicToken, s + b, rest);
      } else {
        assert [] + (s + b) == s + b;
      }
    }
  }

  lemma TokenizesNothing(rest: seq<byte>)
    ensures Tokenizes([], rest) && Literals([]) + rest == rest
  {}
}
