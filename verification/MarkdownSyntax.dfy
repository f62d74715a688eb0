// Backslash escapes, link and image targets
// (crates/xiaomu-codec-markdown/src/escape.rs, syntax.rs, serialize.rs).
module MarkdownSyntax {
  import opened Wrappers
  import opened Text

  const TAB: byte := 0x09
  const LF: byte := 0x0A
  const SPACE: byte := 0x20
  const BANG: byte := 0x21
  const QUOTE: byte := 0x22
  const OPEN_PAREN: byte := 0x28
  const CLOSE_PAREN: byte := 0x29
  const OPEN_ANGLE: byte := 0x3C
  const CLOSE_ANGLE: byte := 0x3E
  const OPEN_BRACKET: byte := 0x5B
  const BACKSLASH: byte := 0x5C
  const CLOSE_BRACKET: byte := 0x5D
  const BACKTICK: byte := 0x60

  const STAR: byte := 0x2A
  const TILDE: byte := 0x7E

  // The three sets of bytes the writer escapes.
  datatype Escapes = InText | InDestination | InTitle {
    predicate Has(b: byte) {
      match this
      // \ ` * _ ~ ! [ ] < > # + - .
      case InText =>
        || b == BACKSLASH || b == BACKTICK || b == STAR || b == 0x5F || b == TILDE || b == BANG || b == OPEN_BRACKET
        || b == CLOSE_BRACKET || b == OPEN_ANGLE || b == CLOSE_ANGLE || b == 0x23 || b == 0x2B || b == 0x2D || b == 0x2E
      case InDestination => b == BACKSLASH || b == OPEN_ANGLE || b == CLOSE_ANGLE || b == OPEN_PAREN || b == CLOSE_PAREN
      case InTitle => b == BACKSLASH || b == QUOTE
    }
  }

  // `is_ascii_punctuation`.
  predicate IsPunctuation(b: byte) {
    0x21 <= b <= 0x2F || 0x3A <= b <= 0x40 || 0x5B <= b <= 0x60 || 0x7B <= b <= 0x7E
  }

  lemma EscapesArePunctuation(escapes: Escapes, b: byte)
    ensures escapes.Has(BACKSLASH) && (escapes.Has(b) ==> IsPunctuation(b))
  {}

  // ----- escaping

  function EscapeByte(b: byte, escapes: Escapes): seq<byte> {
    if escapes.Has(b) then [BACKSLASH, b] else [b]
  }

  function Escape(text: seq<byte>, escapes: Escapes): seq<byte> {
    if text == [] then [] else EscapeByte(text[0], escapes) + Escape(text[1..], escapes)
  }

  function Unescape(text: seq<byte>): seq<byte> {
    if text == [] then []
    else if |text| >= 2 && text[0] == BACKSLASH && IsPunctuation(text[1]) then [text[1]] + Unescape(text[2..])
    else [text[0]] + Unescape(text[1..])
  }

  lemma Cut<T>(a: seq<T>, b: seq<T>)
    ensures (a + b)[..|a|] == a && (a + b)[|a|..] == b
  {}

  lemma {:induction false} EscapeConcat(a: seq<byte>, b: seq<byte>, escapes: Escapes)
    ensures Escape(a + b, escapes) == Escape(a, escapes) + Escape(b, escapes)
  {
    hide EscapeByte;
    if a == [] {
      assert a + b == b;
    } else {
      assert (a + b)[1..] == a[1..] + b;
      EscapeConcat(a[1..], b, escapes);
      assert EscapeByte(a[0], escapes) + Escape(a[1..], escapes) + Escape(b, escapes)
        == EscapeByte(a[0], escapes) + (Escape(a[1..], escapes) + Escape(b, escapes));
    }
  }

  lemma EscapeOne(b: byte, escapes: Escapes)
    ensures Escape([b], escapes) == EscapeByte(b, escapes)
  {
    hide EscapeByte;
    assert [b][1..] == [];
  }

  // `escape_into`, `escape_text`, `escape_title`. The source goes character by
  // character; the escaped ones are single bytes.
  method EscapeInto(text: seq<byte>, escapes: Escapes) returns (r: seq<byte>)
    ensures r == Escape(text, escapes)
  {
    hide Escape;
    r := [];
    EscapeNothing(escapes);
    assert text[..0] == [];
    for i := 0 to |text|
      invariant r == Escape(text[..i], escapes)
    {
      assert text[..i + 1] == text[..i] + [text[i]];
      EscapeConcat(text[..i], [text[i]], escapes);
      EscapeOne(text[i], escapes);
      if escapes.Has(text[i]) {
        r := r + [BACKSLASH];
      }
      r := r + [text[i]];
    }
    assert text[..|text|] == text;
  }

  lemma EscapeNothing(escapes: Escapes)
    ensures Escape([], escapes) == []
  {}

  lemma {:induction false} UnescapeEscape(text: seq<byte>, escapes: Escapes)
    ensures Unescape(Escape(text, escapes)) == text
  {
    if text != [] {
      EscapesArePunctuation(escapes, text[0]);
      UnescapeEscape(text[1..], escapes);
      Cut(EscapeByte(text[0], escapes), Escape(text[1..], escapes));
    }
  }

  // A character that starts no escape is copied whole.
  lemma {:induction false} UnescapeChar(text: seq<byte>, n: nat)
    requires n <= |text| && forall i :: 0 <= i < n ==> text[i] != BACKSLASH
    ensures Unescape(text) == text[..n] + Unescape(text[n..])
  {
    if n == 0 {
      assert text[n..] == text;
    } else {
      UnescapeChar(text[1..], n - 1);
      assert text[1..][n - 1..] == text[n..];
      assert text[..n] == [text[0]] + text[1..][..n - 1];
    }
  }

  // One turn of the reader: an escape, or one whole character.
  lemma {:induction false} UnescapeStep(text: seq<byte>)
    requires ValidUtf8(text) && text != []
    ensures |text| >= 2 && text[0] == BACKSLASH && IsPunctuation(text[1]) ==>
      Unescape(text) == [text[1]] + Unescape(text[2..]) && ValidUtf8(text[2..])
    ensures ScalarLen(text) > 0 && ValidUtf8(text[ScalarLen(text)..])
    ensures !(|text| >= 2 && text[0] == BACKSLASH && IsPunctuation(text[1])) ==>
      Unescape(text) == text[..ScalarLen(text)] + Unescape(text[ScalarLen(text)..])
  {
    if text[0] == BACKSLASH {
      AsciiPrefix(text);
      assert text[..1] == [text[0]];
      if |text| >= 2 && IsPunctuation(text[1]) {
        AsciiPrefix(text[1..]);
        assert text[1..][1..] == text[2..];
      }
    } else {
      ScalarHasNoBackslash(text);
      UnescapeChar(text, ScalarLen(text));
    }
  }

  // `unescape`.
  method ReadEscapes(text: Str) returns (r: seq<byte>)
    ensures r == Unescape(text)
  {
    hide ValidUtf8, Unescape, ScalarLen, IsPunctuation;
    r := [];
    var index := 0;
    UnescapeNothing();
    assert text[index..] == text;
    while index < |text|
      invariant index <= |text| && ValidUtf8(text[index..])
      invariant r + Unescape(text[index..]) == Unescape(text)
    {
      UnescapeStep(text[index..]);
      if text[index] == BACKSLASH && index + 1 < |text| && IsPunctuation(text[index + 1]) {
        assert text[index..][2..] == text[index + 2..];
        r := r + [text[index + 1]];
        index := index + 2;
      } else {
        var n := ScalarLen(text[index..]);
        assert text[index..][n..] == text[index + n..] && text[index..][..n] == text[index..index + n];
        r := r + text[index..index + n];
        index := index + n;
      }
    }
    assert text[index..] == [];
  }

  lemma UnescapeNothing()
    ensures Unescape([]) == []
  {}

  lemma AsciiPrefix(s: seq<byte>)
    requires ValidUtf8(s) && s != [] && s[0] < 0x80
    ensures ScalarLen(s) == 1 && ValidUtf8(s[1..])
  {}

  lemma ScalarHasNoBackslash(s: seq<byte>)
    requires ValidUtf8(s) && s != [] && s[0] != BACKSLASH
    ensures forall i :: 0 <= i < ScalarLen(s) ==> s[i] != BACKSLASH
  {
    forall i | 0 < i < ScalarLen(s)
      ensures s[i] != BACKSLASH
    {
      ScalarShape(s, i);
    }
  }

  // ----- scanning

  // Bytes before the first unescaped `stop`; `|s|` or more when there is none.
  function SkipTo(s: seq<byte>, stop: byte): nat
    decreases |s|
  {
    if s == [] || s[0] == stop then 0
    else if s[0] == BACKSLASH then if |s| >= 2 then 2 + SkipTo(s[2..], stop) else 2
    else 1 + SkipTo(s[1..], stop)
  }

  // Bytes of a bare destination; none when it is malformed.
  function SkipBare(s: seq<byte>): (r: Option<nat>)
    ensures r.Some? ==> r.value <= |s|
    decreases |s|
  {
    if s == [] || s[0] == CLOSE_PAREN || s[0] == SPACE || s[0] == TAB || s[0] == LF then Some(0)
    else if s[0] == OPEN_PAREN then None
    else if s[0] == BACKSLASH then
      if |s| < 2 then None else More(2, SkipBare(s[2..]))
    else More(1, SkipBare(s[1..]))
  }

  function More(n: nat, r: Option<nat>): Option<nat> {
    if r.None? then None else Some(n + r.value)
  }

  function SkipBlanks(s: seq<byte>): (n: nat)
    ensures n <= |s|
  {
    if s != [] && (s[0] == SPACE || s[0] == TAB) then 1 + SkipBlanks(s[1..]) else 0
  }

  // An escaped text hides every `stop` it contains.
  lemma {:induction false} SkipEscaped(text: seq<byte>, escapes: Escapes, stop: byte, rest: seq<byte>)
    requires escapes.Has(stop) && stop != BACKSLASH
    ensures SkipTo(Escape(text, escapes) + rest, stop) == |Escape(text, escapes)| + SkipTo(rest, stop)
  {
    if text == [] {
      assert Escape(text, escapes) + rest == rest;
    } else {
      EscapesArePunctuation(escapes, text[0]);
      EscapeSplit(text, escapes, rest);
      SkipOne(text[0], escapes, stop, Escape(text[1..], escapes) + rest);
      SkipEscaped(text[1..], escapes, stop, rest);
    }
  }

  lemma EscapeSplit(text: seq<byte>, escapes: Escapes, rest: seq<byte>)
    requires text != []
    ensures Escape(text, escapes) + rest == EscapeByte(text[0], escapes) + (Escape(text[1..], escapes) + rest)
    ensures |Escape(text, escapes)| == |EscapeByte(text[0], escapes)| + |Escape(text[1..], escapes)|
  {
    hide EscapeByte;
  }

  lemma SkipOne(b: byte, escapes: Escapes, stop: byte, rest: seq<byte>)
    requires escapes.Has(stop) && escapes.Has(BACKSLASH) && stop != BACKSLASH
    ensures SkipTo(EscapeByte(b, escapes) + rest, stop) == |EscapeByte(b, escapes)| + SkipTo(rest, stop)
  {
    Cut(EscapeByte(b, escapes), rest);
  }

  predicate IsBlank(b: byte) {
    b == SPACE || b == TAB || b == LF
  }

  lemma {:induction false} SkipBareEscaped(text: seq<byte>, rest: seq<byte>)
    requires forall b :: b in text ==> !IsBlank(b)
    ensures SkipBare(Escape(text, InDestination) + rest) == More(|Escape(text, InDestination)|, SkipBare(rest))
  {
    if text == [] {
      assert Escape(text, InDestination) + rest == rest;
    } else {
      assert text[0] in text;
      EscapeSplit(text, InDestination, rest);
      SkipBareOne(text[0], Escape(text[1..], InDestination) + rest);
      SkipBareEscaped(text[1..], rest);
    }
  }

  lemma SkipBareOne(b: byte, rest: seq<byte>)
    requires !IsBlank(b)
    ensures SkipBare(EscapeByte(b, InDestination) + rest) == More(|EscapeByte(b, InDestination)|, SkipBare(rest))
  {
    Cut(EscapeByte(b, InDestination), rest);
  }

  // ----- link and image targets

  // The destination and how many bytes it takes.
  function ReadDestination(text: seq<byte>): (r: Option<(seq<byte>, nat)>)
    ensures r.Some? ==> r.value.1 <= |text|
  {
    if text != [] && text[0] == OPEN_ANGLE then
      var n := SkipTo(text[1..], CLOSE_ANGLE);
      if 1 + n >= |text| then None else Some((Unescape(text[1..][..n]), n + 2))
    else
      var n := SkipBare(text);
      if n.None? then None else Some((Unescape(text[..n.value]), n.value))
  }

  // The optional title and the closing parenthesis, after the destination:
  // the title and the bytes read.
  function ReadTitle(s: seq<byte>): Option<(Option<seq<byte>>, nat)> {
    var k := SkipBlanks(s);
    if s[k..] != [] && s[k] == QUOTE then ReadQuoted(s[k + 1..], k + 1) else ReadClose(None, k, s[k..])
  }

  // After the opening quote, `at` bytes on.
  function ReadQuoted(s: seq<byte>, at: nat): Option<(Option<seq<byte>>, nat)> {
    var n := SkipTo(s, QUOTE);
    if n >= |s| then None else ReadEnd(Unescape(s[..n]), at + n + 1, s[n + 1..])
  }

  function ReadEnd(title: seq<byte>, at: nat, s: seq<byte>): Option<(Option<seq<byte>>, nat)> {
    var k := SkipBlanks(s);
    ReadClose(Some(title), at + k, s[k..])
  }

  function ReadClose(title: Option<seq<byte>>, at: nat, s: seq<byte>): Option<(Option<seq<byte>>, nat)> {
    if s != [] && s[0] == CLOSE_PAREN then Some((title, at + 1)) else None
  }

  // Destination, title and bytes consumed, as `parse_destination` returns them.
  function ParseDestination(text: seq<byte>): Option<(seq<byte>, Option<seq<byte>>, nat)> {
    var d := ReadDestination(text);
    if d.None? then None
    else
      var t := ReadTitle(text[d.value.1..]);
      if t.None? then None else Some((d.value.0, t.value.0, d.value.1 + t.value.1))
  }

  // `escape_destination` wraps in angle brackets.
  predicate Wraps(destination: seq<byte>) {
    destination == [] || SPACE in destination || OPEN_ANGLE in destination || CLOSE_ANGLE in destination
  }

  function PrintDestination(destination: seq<byte>): seq<byte> {
    if Wraps(destination) then [OPEN_ANGLE] + Escape(destination, InDestination) + [CLOSE_ANGLE]
    else Escape(destination, InDestination)
  }

  function PrintTitle(title: Option<seq<byte>>): seq<byte> {
    if title.None? then [] else [SPACE, QUOTE] + Escape(title.value, InTitle) + [QUOTE]
  }

  // A target as `write_image` and `wrap_link` print it after the opening `(`.
  function PrintTarget(destination: seq<byte>, title: Option<seq<byte>>): seq<byte> {
    PrintDestination(destination) + PrintTitle(title) + [CLOSE_PAREN]
  }

  // Readable back: wrapped, or free of the blanks that end a bare destination.
  predicate Readable(destination: seq<byte>) {
    Wraps(destination) || (TAB !in destination && LF !in destination)
  }

  lemma {:induction false} TitleReadBack(title: Option<seq<byte>>, rest: seq<byte>)
    ensures ReadTitle(PrintTitle(title) + [CLOSE_PAREN] + rest) == Some((title, |PrintTitle(title)| + 1))
  {
    if title.None? {
      assert PrintTitle(title) + [CLOSE_PAREN] + rest == [CLOSE_PAREN] + rest;
      NoBlank([CLOSE_PAREN] + rest);
    } else {
      QuotedReadBack(title.value, rest);
    }
  }

  lemma NoBlank(s: seq<byte>)
    requires s != [] && !IsBlank(s[0])
    ensures SkipBlanks(s) == 0 && s[0..] == s
  {}

  lemma OneBlank(s: seq<byte>)
    requires s != [] && !IsBlank(s[0])
    ensures SkipBlanks([SPACE] + s) == 1 && ([SPACE] + s)[1..] == s
  {
    assert ([SPACE] + s)[1..] == s;
  }

  lemma {:induction false} QuotedReadBack(title: seq<byte>, rest: seq<byte>)
    ensures ReadTitle(PrintTitle(Some(title)) + [CLOSE_PAREN] + rest)
      == Some((Some(title), |PrintTitle(Some(title))| + 1))
  {
    hide SkipTo, SkipBlanks, Escape, Unescape, ReadQuoted;
    var e := Escape(title, InTitle);
    var tail := [QUOTE] + ([CLOSE_PAREN] + rest);
    var t := [QUOTE] + (e + tail);
    assert PrintTitle(Some(title)) + [CLOSE_PAREN] + rest == [SPACE] + t;
    OneBlank(t);
    assert ([SPACE] + t)[2..] == e + tail;
    QuotedBody(title, rest);
  }

  lemma {:induction false} QuotedBody(title: seq<byte>, rest: seq<byte>)
    ensures ReadQuoted(Escape(title, InTitle) + ([QUOTE] + ([CLOSE_PAREN] + rest)), 2)
      == Some((Some(title), |Escape(title, InTitle)| + 4))
  {
    hide SkipTo, SkipBlanks, Escape, Unescape;
    var e := Escape(title, InTitle);
    var tail := [QUOTE] + ([CLOSE_PAREN] + rest);
    SkipEscaped(title, InTitle, QUOTE, tail);
    StopsAtOnce(tail, QUOTE);
    Cut(e, tail);
    UnescapeEscape(title, InTitle);
    Cut(e + [QUOTE], [CLOSE_PAREN] + rest);
    assert e + tail == e + [QUOTE] + ([CLOSE_PAREN] + rest);
    NoBlank([CLOSE_PAREN] + rest);
  }

  lemma StopsAtOnce(s: seq<byte>, stop: byte)
    requires s != [] && s[0] == stop
    ensures SkipTo(s, stop) == 0
  {}

  // A printed target reads back exactly when its destination is readable,
  // whatever follows it.
  lemma {:induction false} TargetRoundTrip(destination: seq<byte>, title: Option<seq<byte>>, rest: seq<byte>)
    ensures var printed := PrintTarget(destination, title);
      ParseDestination(printed + rest) == Some((destination, title, |printed|)) <==> Readable(destination)
    ensures var r := ParseDestination(PrintTarget(destination, title) + rest);
      r.Some? && !Readable(destination) ==> r.value.0 != destination
  {
    hide ReadTitle, ReadDestination, PrintTarget, PrintDestination, PrintTitle, Readable;
    var tail := PrintTitle(title) + [CLOSE_PAREN] + rest;
    TargetShape(destination, title, rest);
    Cut(PrintDestination(destination), tail);
    if Readable(destination) {
      DestinationReadBack(destination, tail);
      TitleReadBack(title, rest);
    } else {
      BareCut(destination, tail);
    }
  }

  lemma TargetShape(destination: seq<byte>, title: Option<seq<byte>>, rest: seq<byte>)
    ensures var tail := PrintTitle(title) + [CLOSE_PAREN] + rest;
      && PrintTarget(destination, title) + rest == PrintDestination(destination) + tail
      && |PrintTarget(destination, title)| == |PrintDestination(destination)| + |PrintTitle(title)| + 1
      && tail != [] && (tail[0] == SPACE || tail[0] == CLOSE_PAREN)
  {
    hide PrintDestination, Escape;
  }

  lemma {:induction false} DestinationReadBack(destination: seq<byte>, tail: seq<byte>)
    requires Readable(destination) && tail != [] && (tail[0] == SPACE || tail[0] == CLOSE_PAREN)
    ensures ReadDestination(PrintDestination(destination) + tail)
      == Some((destination, |PrintDestination(destination)|))
  {
    hide Escape, Unescape, SkipTo, SkipBare;
    var e := Escape(destination, InDestination);
    UnescapeEscape(destination, InDestination);
    if Wraps(destination) {
      var body := e + ([CLOSE_ANGLE] + tail);
      assert PrintDestination(destination) + tail == [OPEN_ANGLE] + body;
      Cut([OPEN_ANGLE], body);
      SkipEscaped(destination, InDestination, CLOSE_ANGLE, [CLOSE_ANGLE] + tail);
      StopsAtOnce([CLOSE_ANGLE] + tail, CLOSE_ANGLE);
      Cut(e, [CLOSE_ANGLE] + tail);
    } else {
      BareStart(destination, tail);
      SkipBareEscaped(destination, tail);
      BareStops(tail);
      Cut(e, tail);
    }
  }

  lemma BareStops(tail: seq<byte>)
    requires tail != [] && (IsBlank(tail[0]) || tail[0] == CLOSE_PAREN)
    ensures SkipBare(tail) == Some(0)
  {}

  lemma BareStart(destination: seq<byte>, tail: seq<byte>)
    requires !Wraps(destination)
    ensures var e := Escape(destination, InDestination); |e + tail| > 0 && (e + tail)[0] != OPEN_ANGLE
  {
    assert destination[0] in destination;
  }

  // A bare destination is read only up to its first tab or line feed.
  lemma {:induction false} BareCut(destination: seq<byte>, tail: seq<byte>)
    requires !Readable(destination)
    ensures var r := ReadDestination(PrintDestination(destination) + tail); r.Some? ==> r.value.0 != destination
  {
    hide Escape, Unescape, SkipTo, SkipBare;
    var k := FirstBlank(destination);
    var front := Escape(destination[..k], InDestination);
    var after := Escape(destination[k..], InDestination) + tail;
    assert destination == destination[..k] + destination[k..];
    EscapeConcat(destination[..k], destination[k..], InDestination);
    assert Escape(destination, InDestination) + tail == front + after;
    BareStart(destination, tail);
    BlankFirst(destination[k..], tail);
    BareStops(after);
    SkipBareEscaped(destination[..k], after);
    Cut(front, after);
    UnescapeEscape(destination[..k], InDestination);
  }

  lemma BlankFirst(text: seq<byte>, tail: seq<byte>)
    requires text != [] && IsBlank(text[0])
    ensures |Escape(text, InDestination) + tail| > 0 && IsBlank((Escape(text, InDestination) + tail)[0])
  {}

  lemma FirstBlank(text: seq<byte>) returns (k: nat)
    requires TAB in text || LF in text
    ensures k < |text| && (text[k] == TAB || text[k] == LF)
    ensures forall b :: b in text[..k] ==> b != TAB && b != LF && b in text
  {
    k := 0;
    if text[0] != TAB && text[0] != LF {
      var rest := FirstBlank(text[1..]);
      k := rest + 1;
      assert text[..k] == [text[0]] + text[1..][..rest];
    }
  }

  // `parse_image_syntax`.
  function ParseImage(text: seq<byte>): Option<(seq<byte>, seq<byte>, Option<seq<byte>>)> {
    if |text| < 2 || text[0] != BANG || text[1] != OPEN_BRACKET then None
    else
      var rest := text[2..];
      var close := SkipTo(rest, CLOSE_BRACKET);
      if close >= |rest| then None
      else
        var after := rest[close..][1..];
        if after == [] || after[0] != OPEN_PAREN then None
        else
          var target := ParseDestination(after[1..]);
          if target.None? || target.value.2 != |after| - 1 then None
          else Some((Unescape(rest[..close]), target.value.0, target.value.1))
  }

  // The image line `write_image` prints, without its padding and line feed.
  function PrintImage(alt: seq<byte>, url: seq<byte>, title: Option<seq<byte>>): seq<byte> {
    [BANG, OPEN_BRACKET] + (Escape(alt, InText) + ([CLOSE_BRACKET] + ([OPEN_PAREN] + PrintTarget(url, title))))
  }

  lemma {:induction false} ImageRoundTrip(alt: seq<byte>, url: seq<byte>, title: Option<seq<byte>>)
    ensures ParseImage(PrintImage(alt, url, title)) == Some((alt, url, title)) <==> Readable(url)
  {
    hide ParseDestination, PrintTarget, Readable, Escape, Unescape, SkipTo;
    var e := Escape(alt, InText);
    var target := PrintTarget(url, title);
    var tail := [CLOSE_BRACKET] + ([OPEN_PAREN] + target);
    Cut([BANG, OPEN_BRACKET], e + tail);
    SkipEscaped(alt, InText, CLOSE_BRACKET, tail);
    StopsAtOnce(tail, CLOSE_BRACKET);
    Cut(e, tail);
    Cut([CLOSE_BRACKET], [OPEN_PAREN] + target);
    Cut([OPEN_PAREN], target);
    UnescapeEscape(alt, InText);
    TargetRoundTrip(url, title, []);
    assert target + [] == target;
  }

  // ----- the readers' loops

  function Rest(text: seq<byte>, index: nat): seq<byte> {
    if index <= |text| then text[index..] else []
  }

  lemma SkipToStep(text: seq<byte>, index: nat, stop: byte)
    requires index < |text|
    ensures text[index] == stop ==> SkipTo(text[index..], stop) == 0
    ensures text[index] != stop && text[index] == BACKSLASH ==>
      SkipTo(text[index..], stop) == 2 + SkipTo(Rest(text, index + 2), stop)
    ensures text[index] != stop && text[index] != BACKSLASH ==>
      SkipTo(text[index..], stop) == 1 + SkipTo(text[index + 1..], stop)
  {
    var s := text[index..];
    assert s[1..] == text[index + 1..];
    if |s| >= 2 {
      assert s[2..] == Rest(text, index + 2);
    }
  }

  // The loop that passes escapes and stops at `stop`.
  method ScanTo(text: Str, start: nat, stop: byte) returns (index: nat)
    requires start <= |text|
    ensures index == start + SkipTo(text[start..], stop)
    ensures start <= index && (index < |text| ==> text[index] == stop)
  {
    hide SkipTo;
    index := start;
    while index < |text| && text[index] != stop
      invariant start <= index <= |text| + 1
      invariant index + SkipTo(Rest(text, index), stop) == start + SkipTo(text[start..], stop)
      decreases |text| - index
    {
      SkipToStep(text, index, stop);
      if text[index] == BACKSLASH {
        index := index + 1;
      }
      index := index + 1;
    }
    if index < |text| {
      SkipToStep(text, index, stop);
    } else {
      assert Rest(text, index) == [];
      SkipNothing(stop);
    }
  }

  lemma SkipNothing(stop: byte)
    ensures SkipTo([], stop) == 0 && SkipBlanks([]) == 0 && SkipBare([]) == Some(0)
  {}

  method PassBlanks(text: Str, start: nat) returns (index: nat)
    requires start <= |text|
    ensures index == start + SkipBlanks(text[start..]) && index <= |text|
  {
    index := start;
    while index < |text| && (text[index] == SPACE || text[index] == TAB)
      invariant start <= index <= |text|
      invariant index + SkipBlanks(text[index..]) == start + SkipBlanks(text[start..])
    {
      assert text[index..][1..] == text[index + 1..];
      index := index + 1;
    }
  }

  // `find_unescaped`.
  method FindUnescaped(text: Str, needle: byte) returns (r: Option<nat>)
    ensures r == if SkipTo(text, needle) < |text| then Some(SkipTo(text, needle)) else None
    ensures r.Some? ==> text[r.value] == needle
  {
    assert text[0..] == text;
    var index := ScanTo(text, 0, needle);
    r := if index < |text| then Some(index) else None;
  }

  lemma SkipBareStep(text: seq<byte>, index: nat)
    requires index < |text|
    ensures IsBlank(text[index]) || text[index] == CLOSE_PAREN ==> SkipBare(text[index..]) == Some(0)
    ensures text[index] == OPEN_PAREN || (text[index] == BACKSLASH && index + 1 >= |text|) ==>
      SkipBare(text[index..]) == None
    ensures text[index] == BACKSLASH && index + 1 < |text| ==>
      SkipBare(text[index..]) == More(2, SkipBare(text[index + 2..]))
    ensures var b := text[index];
      !IsBlank(b) && b != CLOSE_PAREN && b != OPEN_PAREN && b != BACKSLASH ==>
        SkipBare(text[index..]) == More(1, SkipBare(text[index + 1..]))
  {
    var s := text[index..];
    assert s[1..] == text[index + 1..];
    if |s| >= 2 {
      assert s[2..] == text[index + 2..];
    }
  }

  lemma MoreAdds(a: nat, b: nat, r: Option<nat>)
    ensures More(a, More(b, r)) == More(a + b, r) && More(a, None) == None && More(a, Some(0)) == Some(a)
      && More(0, r) == r
  {}

  // The loop over a bare destination.
  method ScanBare(text: Str) returns (r: Option<nat>)
    ensures r == SkipBare(text)
    ensures r.Some? ==> r.value == |text| || text[r.value] < 0x80
  {
    hide SkipBare, More, ValidUtf8;
    var index := 0;
    assert text[0..] == text;
    MoreAdds(0, 0, SkipBare(text));
    while index < |text| && text[index] != CLOSE_PAREN
      invariant index <= |text|
      invariant SkipBare(text) == More(index, SkipBare(text[index..]))
    {
      SkipBareStep(text, index);
      MoreAdds(index, 0, None);
      if text[index] == BACKSLASH {
        if index + 1 >= |text| {
          return None;
        }
        MoreAdds(index, 2, SkipBare(text[index + 2..]));
        index := index + 1;
      } else if IsBlank(text[index]) {
        break;
      } else if text[index] == OPEN_PAREN {
        return None;
      } else {
        MoreAdds(index, 1, SkipBare(text[index + 1..]));
      }
      index := index + 1;
    }
    if index < |text| {
      SkipBareStep(text, index);
    } else {
      assert text[index..] == [];
      SkipNothing(0);
    }
    MoreAdds(index, 0, None);
    r := Some(index);
  }

  // In valid text no character straddles an ASCII byte.
  lemma {:induction false} AfterAscii(s: seq<byte>, i: nat)
    requires ValidUtf8(s) && i < |s| && s[i] < 0x80
    ensures IsBoundary(s, i + 1)
    decreases |s|
  {
    if i == 0 {
      AsciiPrefix(s);
      if |s| > 1 {
        FirstIsLead(s[1..]);
      }
    } else {
      var n := ScalarLen(s);
      if i < n {
        ScalarShape(s, i);
      }
      AfterAscii(s[n..], i - n);
    }
  }

  // The text between two ASCII bytes is valid.
  lemma {:induction false} BetweenAscii(s: seq<byte>, i: nat, j: nat)
    requires ValidUtf8(s) && i <= j <= |s| && (i == 0 || s[i - 1] < 0x80) && (j == |s| || s[j] < 0x80)
    ensures ValidUtf8(s[i..j])
  {
    hide ValidUtf8;
    if i > 0 {
      AfterAscii(s, i - 1);
    }
    SliceValid(s, i, j);
  }

  // The first half of `parse_destination`.
  method ReadDestinationFrom(text: Str) returns (r: Option<(seq<byte>, nat)>)
    ensures r == ReadDestination(text)
  {
    hide SkipTo, SkipBare, Unescape, ValidUtf8;
    if |text| > 0 && text[0] == OPEN_ANGLE {
      var index := ScanTo(text, 1, CLOSE_ANGLE);
      if index >= |text| {
        return None;
      }
      BetweenAscii(text, 1, index);
      assert text[1..][..index - 1] == text[1..index];
      var destination := ReadEscapes(text[1..index]);
      r := Some((destination, index + 1));
    } else {
      var bare := ScanBare(text);
      if bare.None? {
        return None;
      }
      BetweenAscii(text, 0, bare.value);
      assert text[0..bare.value] == text[..bare.value];
      var destination := ReadEscapes(text[..bare.value]);
      r := Some((destination, bare.value));
    }
  }

  // `parse_destination`.
  method ReadTarget(text: Str) returns (r: Option<(seq<byte>, Option<seq<byte>>, nat)>)
    ensures r == ParseDestination(text)
    ensures r.Some? ==> 0 < r.value.2 <= |text| && text[r.value.2 - 1] == CLOSE_PAREN
  {
    hide ReadDestination, ReadTitle, ValidUtf8;
    var destination := ReadDestinationFrom(text);
    if destination.None? {
      return None;
    }
    var title := ReadTitleFrom(text, destination.value.1);
    r := if title.None? then None else Some((destination.value.0, title.value.0, title.value.1));
  }

  lemma DropTwice<T>(s: seq<T>, i: nat, j: nat)
    requires i + j <= |s|
    ensures s[i..][j..] == s[i + j..] && s[i..][..j] == s[i..i + j]
  {}

  // A title as positions of the whole text.
  function Offset(r: Option<(Option<seq<byte>>, nat)>, start: nat): Option<(Option<seq<byte>>, nat)> {
    if r.None? then None else Some((r.value.0, start + r.value.1))
  }

  // The rest of `parse_destination`, after the destination.
  method ReadTitleFrom(text: Str, start: nat) returns (r: Option<(Option<seq<byte>>, nat)>)
    requires start <= |text|
    ensures r == Offset(ReadTitle(text[start..]), start)
    ensures r.Some? ==> 0 < r.value.1 <= |text| && text[r.value.1 - 1] == CLOSE_PAREN
  {
    hide SkipTo, SkipBlanks, Unescape, ValidUtf8, ReadQuoted;
    var index := PassBlanks(text, start);
    DropTwice(text, start, index - start);
    if index < |text| && text[index] == QUOTE {
      DropTwice(text, start, index + 1 - start);
      r := ReadQuotedFrom(text, index + 1, start);
    } else if index < |text| && text[index] == CLOSE_PAREN {
      r := Some((None, index + 1));
    } else {
      r := None;
    }
  }

  method ReadQuotedFrom(text: Str, from: nat, ghost start: nat) returns (r: Option<(Option<seq<byte>>, nat)>)
    requires start <= from <= |text| && 0 < from && text[from - 1] == QUOTE
    ensures r == Offset(ReadQuoted(text[from..], from - start), start)
    ensures r.Some? ==> 0 < r.value.1 <= |text| && text[r.value.1 - 1] == CLOSE_PAREN
  {
    hide SkipTo, SkipBlanks, Unescape, ValidUtf8;
    var close := ScanTo(text, from, QUOTE);
    if close >= |text| {
      return None;
    }
    DropTwice(text, from, close - from);
    DropTwice(text, from, close + 1 - from);
    BetweenAscii(text, from, close);
    var title := ReadEscapes(text[from..close]);
    var index := PassBlanks(text, close + 1);
    DropTwice(text, close + 1, index - close - 1);
    if index >= |text| || text[index] != CLOSE_PAREN {
      return None;
    }
    r := Some((Some(title), index + 1));
  }

  // `parse_image_syntax`: one whole line.
  method ReadImage(text: Str) returns (r: Option<(seq<byte>, seq<byte>, Option<seq<byte>>)>)
    ensures r == ParseImage(text)
  {
    hide SkipTo, Unescape, ValidUtf8, ParseDestination;
    if |text| < 2 || text[0] != BANG || text[1] != OPEN_BRACKET {
      return None;
    }
    BetweenAscii(text, 2, |text|);
    assert text[2..|text|] == text[2..];
    var rest: Str := text[2..];
    var close := FindUnescaped(rest, CLOSE_BRACKET);
    if close.None? {
      return None;
    }
    BetweenAscii(rest, 0, close.value);
    assert rest[0..close.value] == rest[..close.value];
    var alt := ReadEscapes(rest[..close.value]);
    assert rest[close.value..][1..] == rest[close.value + 1..];
    if close.value + 1 >= |rest| || rest[close.value + 1] != OPEN_PAREN {
      return None;
    }
    BetweenAscii(rest, close.value + 2, |rest|);
    var after := rest[close.value + 2..|rest|];
    assert rest[close.value..][1..][1..] == after;
    var target := ReadTarget(after);
    if target.None? || target.value.2 != |after| {
      return None;
    }
    r := Some((alt, target.value.0, target.value.1));
  }
}
