// Link targets and images as a grammar: the index loops of the reader accept
// exactly the texts it spells, and read what it says
// (crates/xiaomu-codec-markdown/src/syntax.rs).
module MarkdownGrammar {
  import opened Wrappers
  import opened Text
  import opened MarkdownSyntax

  // ----- escapes

  // The escapable bytes: visible ASCII without digits and letters.
  lemma EscapableBytes(b: byte)
    ensures IsPunctuation(b) <==>
      0x21 <= b <= 0x7E && !(0x30 <= b <= 0x39) && !(0x41 <= b <= 0x5A) && !(0x61 <= b <= 0x7A)
  {}

  // A backslash goes before an escapable byte and stays anywhere else.
  lemma UnescapeRules(b: byte, rest: seq<byte>)
    ensures Unescape([]) == []
    ensures b != BACKSLASH ==> Unescape([b] + rest) == [b] + Unescape(rest)
    ensures IsPunctuation(b) ==> Unescape([BACKSLASH, b] + rest) == [b] + Unescape(rest)
    ensures !IsPunctuation(b) ==> Unescape([BACKSLASH, b] + rest) == [BACKSLASH] + Unescape([b] + rest)
    ensures Unescape([BACKSLASH]) == [BACKSLASH]
  {
    assert ([b] + rest)[1..] == rest;
    assert ([BACKSLASH, b] + rest)[2..] == rest && ([BACKSLASH, b] + rest)[1..] == [b] + rest;
  }

  // The bytes the writer escapes, by place.
  lemma EscapedBytes(b: byte)
    ensures Escapes.InText.Has(b) <==>
      b in [0x5C, 0x60, 0x2A, 0x5F, 0x7E, 0x21, 0x5B, 0x5D, 0x3C, 0x3E, 0x23, 0x2B, 0x2D, 0x2E]
    ensures Escapes.InDestination.Has(b) <==> b in [0x5C, 0x3C, 0x3E, 0x28, 0x29]
    ensures Escapes.InTitle.Has(b) <==> b in [0x5C, 0x22]
    ensures forall escapes: Escapes :: escapes.Has(b) ==> IsPunctuation(b)
  {}

  // ----- stretches of text

  // Every backslash has a byte after it, and no stop stands outside such pairs.
  predicate Sealed(s: seq<byte>, stops: seq<byte>) {
    s == []
    || (if s[0] == BACKSLASH then |s| >= 2 && Sealed(s[2..], stops) else s[0] !in stops && Sealed(s[1..], stops))
  }

  predicate Blanks(s: seq<byte>) {
    forall i :: 0 <= i < |s| ==> s[i] == SPACE || s[i] == TAB
  }

  const BARE_STOPS: seq<byte> := [CLOSE_PAREN, OPEN_PAREN, SPACE, TAB, LF]

  predicate EndsBare(s: seq<byte>) {
    s != [] && (s[0] == CLOSE_PAREN || s[0] == SPACE || s[0] == TAB || s[0] == LF)
  }

  lemma {:induction false} StopsSealed(s: seq<byte>, stop: byte)
    requires stop != BACKSLASH
    ensures var n := SkipTo(s, stop); n < |s| ==> Sealed(s[..n], [stop]) && s[n] == stop
    decreases |s|
  {
    var n := SkipTo(s, stop);
    if n < |s| && s[0] != stop {
      var k := if s[0] == BACKSLASH then 2 else 1;
      StopsSealed(s[k..], stop);
      assert s[..n][k..] == s[k..][..n - k];
    }
  }

  lemma {:induction false} SealedStops(u: seq<byte>, stop: byte, rest: seq<byte>)
    requires Sealed(u, [stop]) && stop != BACKSLASH
    ensures SkipTo(u + ([stop] + rest), stop) == |u|
    decreases |u|
  {
    var s := u + ([stop] + rest);
    if u != [] {
      var k := if u[0] == BACKSLASH then 2 else 1;
      SealedStops(u[k..], stop, rest);
      assert s[k..] == u[k..] + ([stop] + rest);
    }
  }

  lemma {:induction false} BareSealed(s: seq<byte>)
    ensures var n := SkipBare(s);
      n.Some? ==> Sealed(s[..n.value], BARE_STOPS) && (n.value == |s| || EndsBare(s[n.value..]))
    decreases |s|
  {
    var n := SkipBare(s);
    if n.Some? && n.value > 0 {
      var k := if s[0] == BACKSLASH then 2 else 1;
      BareSealed(s[k..]);
      assert s[..n.value][k..] == s[k..][..n.value - k] && s[n.value..] == s[k..][n.value - k..];
    }
  }

  lemma {:induction false} SealedBare(u: seq<byte>, rest: seq<byte>)
    requires Sealed(u, BARE_STOPS) && EndsBare(rest)
    ensures SkipBare(u + rest) == Some(|u|)
    decreases |u|
  {
    if u == [] {
      assert u + rest == rest;
    } else {
      var k := if u[0] == BACKSLASH then 2 else 1;
      SealedBare(u[k..], rest);
      assert (u + rest)[k..] == u[k..] + rest;
    }
  }

  lemma {:induction false} BlanksSkipped(s: seq<byte>)
    ensures var n := SkipBlanks(s); Blanks(s[..n]) && (n == |s| || (s[n] != SPACE && s[n] != TAB))
  {
    if SkipBlanks(s) > 0 {
      BlanksSkipped(s[1..]);
      assert s[..SkipBlanks(s)] == [s[0]] + s[1..][..SkipBlanks(s) - 1];
    }
  }

  lemma {:induction false} SkipsBlanks(u: seq<byte>, rest: seq<byte>)
    requires Blanks(u) && rest != [] && rest[0] != SPACE && rest[0] != TAB
    ensures SkipBlanks(u + rest) == |u|
  {
    if u == [] {
      assert u + rest == rest;
    } else {
      SkipsBlanks(u[1..], rest);
      assert (u + rest)[1..] == u[1..] + rest;
    }
  }

  // ----- the end of a target

  // Blanks, a quoted title with blanks after it when there is one, and the
  // closing parenthesis.
  datatype Ending = Ending(gap: seq<byte>, title: Option<seq<byte>>, tail: seq<byte>) {
    function Spelled(): seq<byte> {
      gap + Rest()
    }

    function Rest(): seq<byte> {
      if title.None? then [CLOSE_PAREN] else [QUOTE] + (title.value + ([QUOTE] + (tail + [CLOSE_PAREN])))
    }

    predicate Legal() {
      && Blanks(gap)
      && if title.None? then tail == [] else Sealed(title.value, [QUOTE]) && Blanks(tail)
    }

    function Title(): Option<seq<byte>> {
      if title.None? then None else Some(Unescape(title.value))
    }
  }

  lemma Regroup<T>(a: seq<T>, b: seq<T>, c: seq<T>)
    ensures a + b + c == a + (b + c)
  {}

  lemma {:induction false} EndingRead(e: Ending, rest: seq<byte>)
    requires e.Legal()
    ensures ReadTitle(e.Spelled() + rest) == Some((e.Title(), |e.Spelled()|))
  {
    hide SkipTo, SkipBlanks, Unescape, Sealed, ReadQuoted;
    var s := e.Spelled() + rest;
    Regroup(e.gap, e.Rest(), rest);
    SkipsBlanks(e.gap, e.Rest() + rest);
    assert s[|e.gap|..] == e.Rest() + rest;
    if e.title.Some? {
      var quoted := e.title.value + ([QUOTE] + (e.tail + ([CLOSE_PAREN] + rest)));
      assert s[|e.gap| + 1..] == quoted;
      QuotedRead(e, rest, |e.gap| + 1);
    }
  }

  lemma {:induction false} QuotedRead(e: Ending, rest: seq<byte>, at: nat)
    requires e.Legal() && e.title.Some?
    ensures ReadQuoted(e.title.value + ([QUOTE] + (e.tail + ([CLOSE_PAREN] + rest))), at)
      == Some((e.Title(), at + |e.title.value| + |e.tail| + 2))
  {
    hide SkipTo, SkipBlanks, Unescape, Sealed;
    var title, after := e.title.value, e.tail + ([CLOSE_PAREN] + rest);
    var s := title + ([QUOTE] + after);
    SealedStops(title, QUOTE, after);
    assert s[..|title|] == title && s[|title| + 1..] == after;
    SkipsBlanks(e.tail, [CLOSE_PAREN] + rest);
    assert after[|e.tail|..] == [CLOSE_PAREN] + rest;
  }

  lemma SpelledQuoted(gap: seq<byte>, title: seq<byte>, tail: seq<byte>, rest: seq<byte>)
    ensures Ending(gap, Some(title), tail).Spelled() + rest
      == gap + ([QUOTE] + (title + ([QUOTE] + (tail + ([CLOSE_PAREN] + rest)))))
  {}

  lemma SpelledPlain(gap: seq<byte>, rest: seq<byte>)
    ensures Ending(gap, None, []).Spelled() + rest == gap + ([CLOSE_PAREN] + rest)
  {}

  lemma CutAround(s: seq<byte>, n: nat)
    requires n < |s|
    ensures s == s[..n] + ([s[n]] + s[n + 1..])
  {}

  lemma {:induction false} QuotedFound(gap: seq<byte>, body: seq<byte>, at: nat) returns (e: Ending, rest: seq<byte>)
    requires ReadQuoted(body, at).Some? && Blanks(gap)
    ensures e.Legal() && gap + ([QUOTE] + body) == e.Spelled() + rest && e.gap == gap
  {
    hide SkipTo, SkipBlanks, Unescape, Sealed, Blanks;
    var n := SkipTo(body, QUOTE);
    StopsSealed(body, QUOTE);
    var after := body[n + 1..];
    var j := SkipBlanks(after);
    BlanksSkipped(after);
    e := Ending(gap, Some(body[..n]), after[..j]);
    rest := after[j + 1..];
    CutAround(after, j);
    CutAround(body, n);
    SpelledQuoted(gap, body[..n], after[..j], rest);
  }

  lemma {:induction false} EndingFound(s: seq<byte>) returns (e: Ending, rest: seq<byte>)
    requires ReadTitle(s).Some?
    ensures e.Legal() && s == e.Spelled() + rest
    ensures e.gap == [] && e.title.Some? ==> s != [] && s[0] == QUOTE
  {
    hide SkipTo, SkipBlanks, Unescape, Sealed, ReadQuoted, Blanks;
    var k := SkipBlanks(s);
    BlanksSkipped(s);
    CutAround(s, k);
    if s[k] == QUOTE {
      e, rest := QuotedFound(s[..k], s[k + 1..], k + 1);
    } else {
      e, rest := Ending(s[..k], None, []), s[k + 1..];
      SpelledPlain(s[..k], rest);
    }
  }

  // ----- destinations

  datatype Place = Wrapped(body: seq<byte>) | Bare(body: seq<byte>) {
    function Spelled(): seq<byte> {
      if Wrapped? then [OPEN_ANGLE] + (body + [CLOSE_ANGLE]) else body
    }

    predicate Legal() {
      if Wrapped? then Sealed(body, [CLOSE_ANGLE])
      else Sealed(body, BARE_STOPS) && (body == [] || body[0] != OPEN_ANGLE)
    }
  }

  lemma {:induction false} PlaceRead(p: Place, rest: seq<byte>)
    requires p.Legal() && (p.Bare? ==> EndsBare(rest))
    ensures ReadDestination(p.Spelled() + rest) == Some((Unescape(p.body), |p.Spelled()|))
  {
    hide SkipTo, SkipBare, Unescape, Sealed;
    var s := p.Spelled() + rest;
    if p.Wrapped? {
      SealedStops(p.body, CLOSE_ANGLE, rest);
      assert s[1..] == p.body + ([CLOSE_ANGLE] + rest);
      assert s[1..][..|p.body|] == p.body;
    } else {
      SealedBare(p.body, rest);
      assert s[..|p.body|] == p.body;
    }
  }

  lemma {:induction false} PlaceFound(s: seq<byte>) returns (p: Place)
    requires ReadDestination(s).Some?
    ensures p.Legal() && p.Spelled() <= s && |p.Spelled()| == ReadDestination(s).value.1
    ensures p.Bare? ==> |p.Spelled()| == |s| || EndsBare(s[|p.Spelled()|..])
  {
    hide SkipTo, SkipBare, Unescape, Sealed;
    if s != [] && s[0] == OPEN_ANGLE {
      var n := SkipTo(s[1..], CLOSE_ANGLE);
      StopsSealed(s[1..], CLOSE_ANGLE);
      p := Wrapped(s[1..][..n]);
      assert s == p.Spelled() + s[n + 2..];
    } else {
      BareSealed(s);
      var n := SkipBare(s).value;
      p := Bare(s[..n]);
      if n > 0 {
        assert p.body[0] == s[0];
      }
    }
  }

  // ----- targets

  // The text starts with this target; a title needs a blank before it when the
  // destination is bare.
  predicate StartsWith(text: seq<byte>, p: Place, e: Ending) {
    && p.Legal() && e.Legal() && (p.Bare? && e.title.Some? ==> e.gap != [])
    && p.Spelled() + e.Spelled() <= text
  }

  lemma {:induction false} TargetRead(text: seq<byte>, p: Place, e: Ending)
    requires StartsWith(text, p, e)
    ensures ParseDestination(text)
      == Some((Unescape(p.body), e.Title(), |p.Spelled() + e.Spelled()|))
  {
    hide ReadDestination, ReadTitle, Sealed, Unescape;
    var front := p.Spelled() + e.Spelled();
    var rest := text[|front|..];
    Regroup(p.Spelled(), e.Spelled(), rest);
    assert text == front + rest;
    assert EndsBare(e.Spelled() + rest) || p.Wrapped? by {
      assert e.gap != [] ==> e.Spelled()[0] == e.gap[0];
    }
    PlaceRead(p, e.Spelled() + rest);
    assert text[|p.Spelled()|..] == e.Spelled() + rest;
    EndingRead(e, rest);
  }

  lemma PrefixIs(a: seq<byte>, b: seq<byte>, text: seq<byte>)
    requires text == a + b
    ensures a <= text
  {}

  lemma {:induction false} TargetFound(text: seq<byte>) returns (p: Place, e: Ending)
    requires ParseDestination(text).Some?
    ensures StartsWith(text, p, e)
  {
    hide ReadDestination, ReadTitle, Sealed, Unescape, Blanks;
    p := PlaceFound(text);
    var n := |p.Spelled()|;
    var rest;
    e, rest := EndingFound(text[n..]);
    assert text == p.Spelled() + text[n..];
    Regroup(p.Spelled(), e.Spelled(), rest);
    PrefixIs(p.Spelled() + e.Spelled(), rest, text);
  }

  // A target is read exactly where the grammar spells one, and then its parts
  // are the unescaped ones and exactly its bytes are consumed.
  lemma {:induction false} TargetGrammar(text: seq<byte>)
    ensures ParseDestination(text).Some? <==> exists p, e :: StartsWith(text, p, e)
    ensures forall p, e :: StartsWith(text, p, e) ==>
      ParseDestination(text) == Some((Unescape(p.body), e.Title(), |p.Spelled() + e.Spelled()|))
  {
    hide ParseDestination, StartsWith;
    if ParseDestination(text).Some? {
      var p, e := TargetFound(text);
    }
    forall p, e | StartsWith(text, p, e)
      ensures ParseDestination(text) == Some((Unescape(p.body), e.Title(), |p.Spelled() + e.Spelled()|))
    {
      TargetRead(text, p, e);
    }
  }

  // ----- images

  // The whole text is this image.
  predicate IsImage(text: seq<byte>, alt: seq<byte>, p: Place, e: Ending) {
    && Sealed(alt, [CLOSE_BRACKET]) && StartsWith(p.Spelled() + e.Spelled(), p, e)
    && text == [BANG, OPEN_BRACKET] + (alt + ([CLOSE_BRACKET] + ([OPEN_PAREN] + (p.Spelled() + e.Spelled()))))
  }

  lemma {:induction false} ImageRead(text: seq<byte>, alt: seq<byte>, p: Place, e: Ending)
    requires IsImage(text, alt, p, e)
    ensures ParseImage(text) == Some((Unescape(alt), Unescape(p.body), e.Title()))
  {
    hide ParseDestination, StartsWith, Sealed, Unescape, SkipTo;
    var target := p.Spelled() + e.Spelled();
    var tail := [OPEN_PAREN] + target;
    TargetRead(target, p, e);
    SealedStops(alt, CLOSE_BRACKET, tail);
    var rest := alt + ([CLOSE_BRACKET] + tail);
    assert text[2..] == rest && rest[|alt|..][1..] == tail && tail[1..] == target && rest[..|alt|] == alt;
  }

  lemma {:induction false} ImageShape(text: seq<byte>) returns (alt: seq<byte>, target: seq<byte>)
    requires ParseImage(text).Some?
    ensures text == [BANG, OPEN_BRACKET] + (alt + ([CLOSE_BRACKET] + ([OPEN_PAREN] + target)))
    ensures Sealed(alt, [CLOSE_BRACKET])
    ensures ParseDestination(target).Some? && ParseDestination(target).value.2 == |target|
  {
    hide ParseDestination, Sealed, Unescape, SkipTo;
    var rest := text[2..];
    var close := SkipTo(rest, CLOSE_BRACKET);
    StopsSealed(rest, CLOSE_BRACKET);
    var after := rest[close..][1..];
    target := after[1..];
    alt := rest[..close];
    CutAround(rest, close);
    assert rest[close + 1..] == after == [OPEN_PAREN] + target;
    assert text == [BANG, OPEN_BRACKET] + rest;
  }

  lemma {:induction false} ImageFound(text: seq<byte>) returns (alt: seq<byte>, p: Place, e: Ending)
    requires ParseImage(text).Some?
    ensures IsImage(text, alt, p, e)
  {
    hide ParseDestination, StartsWith, Sealed, Unescape, ParseImage;
    var target;
    alt, target := ImageShape(text);
    p, e := TargetFound(target);
    TargetRead(target, p, e);
    StartsWhole(target, p, e);
  }

  lemma StartsWhole(text: seq<byte>, p: Place, e: Ending)
    requires StartsWith(text, p, e) && |text| == |p.Spelled() + e.Spelled()|
    ensures text == p.Spelled() + e.Spelled()
  {}

  // A line is read as an image exactly when the grammar spells it whole.
  lemma {:induction false} ImageGrammar(text: seq<byte>)
    ensures ParseImage(text).Some? <==> exists alt, p, e :: IsImage(text, alt, p, e)
    ensures forall alt, p, e :: IsImage(text, alt, p, e) ==>
      ParseImage(text) == Some((Unescape(alt), Unescape(p.body), e.Title()))
  {
    hide ParseImage, IsImage;
    if ParseImage(text).Some? {
      var alt, p, e := ImageFound(text);
    }
    forall alt, p, e | IsImage(text, alt, p, e)
      ensures ParseImage(text) == Some((Unescape(alt), Unescape(p.body), e.Title()))
    {
      ImageRead(text, alt, p, e);
    }
  }
}
