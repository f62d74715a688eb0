// Platform text offsets and display bytes while an input method composes
// (crates/xiaomu-gpui/src/block_view/ime_geometry.rs).
module ImeGeometry {
  import opened Wrappers
  import opened Text
  import opened Marks
  import opened Content
  import opened Flat
  import opened Mapping
  import opened InlineLaws
  import opened AtomDisplay

  // An active composition: the replaced byte range, the seam ordinal at its
  // start, and the preedit text shown there.
  datatype Composition = Composition(start: nat, end: nat, atomIndex: nat, preedit: seq<byte>)

  // What capturing a composition guarantees.
  ghost predicate Active(c: InlineContent, s: Composition) {
    && s.start <= s.end && Boundary(Chars(c.runs), s.start) && Boundary(Chars(c.runs), s.end)
    && s.atomIndex <= CountAt(c.atoms, s.start) && ValidUtf8(s.preedit)
  }

  // The text the platform sees.
  function PlatformText(c: InlineContent, s: Composition): seq<byte>
    requires s.start <= s.end <= |Chars(c.runs)|
  {
    Bytes(Chars(c.runs))[..s.start] + s.preedit + Bytes(Chars(c.runs))[s.end..]
  }

  // ----- what the view computes

  function Shown(c: InlineContent, rendered: seq<seq<byte>>, p: Caret): Option<nat> {
    if ValidCaret(c, p) && CaretCut(c.atoms, p) <= |rendered| then Some(DisplayIndex(c, rendered, p)) else None
  }

  // `composition_layout_range`.
  function LayoutRange(c: InlineContent, rendered: seq<seq<byte>>, s: Composition): Option<(nat, nat)> {
    var start := Shown(c, rendered, Caret(s.start, s.atomIndex));
    var end := if s.start == s.end then start else Shown(c, rendered, Caret(s.end, 0));
    if start.Some? && end.Some? && start.value <= end.value then Some((start.value, end.value)) else None
  }

  // `input_byte_to_layout`; `focus` is the caret of the selection in this node.
  function InputToLayout(c: InlineContent, rendered: seq<seq<byte>>, composition: Option<Composition>,
                         focus: Option<Caret>, raw: nat): Option<nat>
    requires composition.Some? ==> composition.value.start <= composition.value.end
  {
    if c.atoms == [] then Some(raw)
    else match composition
      case Some(s) =>
        var visual := LayoutRange(c, rendered, s);
        var preeditEnd := s.start + |s.preedit|;
        if visual.None? then None
        else if s.start <= raw <= preeditEnd then Some(visual.value.0 + raw - s.start)
        else
          var canonical: nat := if raw > preeditEnd then raw - |s.preedit| + (s.end - s.start) else raw;
          var display := Shown(c, rendered, Caret(canonical, 0));
          if display.None? then None
          else if raw > preeditEnd then
            var shifted := display.value - (visual.value.1 - visual.value.0) + |s.preedit|;
            // The source subtracts unsigned: what follows the range is shown past it.
            if shifted < 0 then None else Some(shifted)
          else display
      case None =>
        Shown(c, rendered, Caret(raw, if focus.Some? && focus.value.offset == raw then focus.value.ordinal else 0))
  }

  // ----- facts about the composed range

  lemma {:induction false} ShownValid(p: Projection, c: InlineContent, rendered: seq<seq<byte>>, q: Caret)
    requires Projects(p, c, rendered) && ValidCaret(c, q)
    ensures Shown(c, rendered, q).Some? && Shown(c, rendered, q) == Some(DisplayIndex(c, rendered, q))
  {
    hide Chars, FirstAt, CountAt, Projects, Boundary, DisplayIndex;
    SpanFacts(p, c, rendered);
    CutInRange(c, rendered, q);
  }

  lemma {:induction false} ShownOrder(p: Projection, c: InlineContent, rendered: seq<seq<byte>>, a: Caret, b: Caret)
    requires Projects(p, c, rendered) && ValidCaret(c, a) && ValidCaret(c, b) && CaretBefore(a, b)
    ensures Shown(c, rendered, a).Some? && Shown(c, rendered, b).Some?
    ensures Shown(c, rendered, a).value < Shown(c, rendered, b).value
  {
    hide Chars, FirstAt, CountAt, Projects, Boundary, DisplayIndex, RenderedOk;
    SpanFacts(p, c, rendered);
    RenderedFacts(p, c, rendered);
    DisplayIncreases(c, rendered, a, b);
    ShownValid(p, c, rendered, a);
    ShownValid(p, c, rendered, b);
  }

  lemma StartOfLine(c: InlineContent, x: nat)
    requires Boundary(Chars(c.runs), x)
    ensures ValidCaret(c, Caret(x, 0))
  {
    hide Chars;
  }

  lemma {:induction false} ActiveRange(p: Projection, c: InlineContent, rendered: seq<seq<byte>>, s: Composition)
    requires Projects(p, c, rendered) && Active(c, s)
    ensures LayoutRange(c, rendered, s).Some?
    ensures var visual := LayoutRange(c, rendered, s).value;
      && Shown(c, rendered, Caret(s.start, s.atomIndex)) == Some(visual.0) && visual.0 <= visual.1
      && (s.start < s.end ==> Shown(c, rendered, Caret(s.end, 0)) == Some(visual.1) && visual.0 < visual.1)
      && (s.start == s.end ==> visual.0 == visual.1)
  {
    hide Chars, FirstAt, CountAt, Projects, Boundary, DisplayIndex, Shown;
    StartOfLine(c, s.end);
    assert ValidCaret(c, Caret(s.start, s.atomIndex));
    ShownValid(p, c, rendered, Caret(s.start, s.atomIndex));
    if s.start < s.end {
      ShownOrder(p, c, rendered, Caret(s.start, s.atomIndex), Caret(s.end, 0));
    }
  }

  // A text boundary before the composition is shown before it.
  lemma {:induction false} ShownBefore(p: Projection, c: InlineContent, rendered: seq<seq<byte>>, s: Composition,
                                       x: nat)
    requires Projects(p, c, rendered) && Active(c, s) && x < s.start && Boundary(Chars(c.runs), x)
    ensures LayoutRange(c, rendered, s).Some? && Shown(c, rendered, Caret(x, 0)).Some?
    ensures Shown(c, rendered, Caret(x, 0)).value < LayoutRange(c, rendered, s).value.0
  {
    hide Chars, FirstAt, CountAt, Projects, Boundary, DisplayIndex, Shown, LayoutRange;
    ActiveRange(p, c, rendered, s);
    StartOfLine(c, x);
    assert ValidCaret(c, Caret(s.start, s.atomIndex));
    ShownOrder(p, c, rendered, Caret(x, 0), Caret(s.start, s.atomIndex));
  }

  // A text boundary after the composition is shown after it.
  lemma {:induction false} ShownAfter(p: Projection, c: InlineContent, rendered: seq<seq<byte>>, s: Composition, x: nat)
    requires Projects(p, c, rendered) && Active(c, s) && x > s.end && Boundary(Chars(c.runs), x)
    ensures LayoutRange(c, rendered, s).Some? && Shown(c, rendered, Caret(x, 0)).Some?
    ensures Shown(c, rendered, Caret(x, 0)).value > LayoutRange(c, rendered, s).value.1
  {
    hide Chars, FirstAt, CountAt, Projects, Boundary, DisplayIndex, Shown, LayoutRange;
    ActiveRange(p, c, rendered, s);
    StartOfLine(c, x);
    var last := if s.start < s.end then Caret(s.end, 0) else Caret(s.start, s.atomIndex);
    StartOfLine(c, s.end);
    assert ValidCaret(c, last);
    ShownOrder(p, c, rendered, last, Caret(x, 0));
  }

  // Boundaries of the platform text outside the preedit are text boundaries.
  lemma {:induction false} PlatformBoundary(c: InlineContent, s: Composition, raw: nat)
    requires WfContent(c) && Active(c, s) && s.end <= |Chars(c.runs)| && IsBoundary(PlatformText(c, s), raw)
    ensures raw < s.start ==> Boundary(Chars(c.runs), raw)
    ensures raw > s.start + |s.preedit| ==> Boundary(Chars(c.runs), raw - |s.preedit| + (s.end - s.start))
  {
    hide Chars, CanonicalRuns, ValidUtf8;
    var text := Bytes(Chars(c.runs));
    if raw < s.start {
      assert PlatformText(c, s)[raw] == text[raw];
    } else if raw > s.start + |s.preedit| && raw < |PlatformText(c, s)| {
      assert PlatformText(c, s)[raw] == text[raw - |s.preedit| + (s.end - s.start)];
    }
  }

  // Every character boundary of the platform text has a place in the layout.
  lemma {:induction false} EveryInputIsLaidOut(p: Projection, c: InlineContent, rendered: seq<seq<byte>>,
                                               s: Composition, raw: nat)
    requires Projects(p, c, rendered) && WfContent(c) && Active(c, s) && s.end <= |Chars(c.runs)|
      && IsBoundary(PlatformText(c, s), raw)
    ensures InputToLayout(c, rendered, Some(s), None, raw).Some?
  {
    hide Chars, WfContent, Projects, Boundary, Shown, LayoutRange, ValidUtf8;
    PlatformBoundary(c, s, raw);
    ActiveRange(p, c, rendered, s);
    if raw < s.start {
      ShownBefore(p, c, rendered, s, raw);
    } else if raw > s.start + |s.preedit| {
      ShownAfter(p, c, rendered, s, raw - |s.preedit| + (s.end - s.start));
    }
  }

  // ----- the two maps

  method CompositionLayoutRange(p: Projection, s: Composition, ghost c: InlineContent, ghost rendered: seq<seq<byte>>)
      returns (r: Option<(nat, nat)>)
    requires Projects(p, c, rendered)
    ensures r == LayoutRange(c, rendered, s)
  {
    hide Projects, ValidCaret, DisplayIndex;
    var start := DisplayOffsetFor(p, InlinePoint(p.node, s.start, s.atomIndex, BeforeGlyph), c, rendered);
    ShownIs(p, c, rendered, Caret(s.start, s.atomIndex), start);
    if start.None? {
      return None;
    }
    var end := start;
    if s.start != s.end {
      end := DisplayOffsetFor(p, InlinePoint(p.node, s.end, 0, BeforeGlyph), c, rendered);
      ShownIs(p, c, rendered, Caret(s.end, 0), end);
    }
    if end.None? {
      return None;
    }
    return if start.value <= end.value then Some((start.value, end.value)) else None;
  }

  lemma ShownIs(p: Projection, c: InlineContent, rendered: seq<seq<byte>>, q: Caret, r: Option<nat>)
    requires Projects(p, c, rendered) && (r.Some? <==> ValidCaret(c, q))
    requires r.Some? ==> CaretCut(c.atoms, q) <= |rendered| && r.value == DisplayIndex(c, rendered, q)
    ensures r == Shown(c, rendered, q)
  {
    hide Projects, ValidCaret, DisplayIndex, CaretCut;
  }

  function FocusIn(p: Projection, focus: Option<InlinePoint>): Option<Caret> {
    if focus.Some? && focus.value.node == p.node then Some(CaretOf(focus.value)) else None
  }

  method InputByteToLayout(p: Projection, composition: Option<Composition>, focus: Option<InlinePoint>, raw: nat,
                           ghost c: InlineContent, ghost rendered: seq<seq<byte>>) returns (r: Option<nat>)
    requires Projects(p, c, rendered) && (composition.Some? ==> composition.value.start <= composition.value.end)
    ensures r == InputToLayout(c, rendered, composition, FocusIn(p, focus), raw)
  {
    hide Projects, Shown, LayoutRange, ValidCaret, DisplayIndex;
    SameAtomCount(p, c, rendered);
    if p.atoms == [] {
      return Some(raw);
    }
    if composition.Some? {
      var s := composition.value;
      var visual := CompositionLayoutRange(p, s, c, rendered);
      if visual.None? {
        return None;
      }
      var preeditEnd := s.start + |s.preedit|;
      if raw >= s.start && raw <= preeditEnd {
        return Some(visual.value.0 + raw - s.start);
      }
      var canonical := if raw > preeditEnd then raw - |s.preedit| + (s.end - s.start) else raw;
      var display := DisplayOffsetFor(p, InlinePoint(p.node, canonical, 0, BeforeGlyph), c, rendered);
      ShownIs(p, c, rendered, Caret(canonical, 0), display);
      if display.None? || raw <= preeditEnd {
        return display;
      }
      var shifted := display.value - (visual.value.1 - visual.value.0) + |s.preedit|;
      return if shifted < 0 then None else Some(shifted);
    }
    var ordinal := if focus.Some? && focus.value.node == p.node && focus.value.offset == raw then focus.value.ordinal
      else 0;
    r := DisplayOffsetFor(p, InlinePoint(p.node, raw, ordinal, BeforeGlyph), c, rendered);
    ShownIs(p, c, rendered, Caret(raw, ordinal), r);
  }

  lemma SameAtomCount(p: Projection, c: InlineContent, rendered: seq<seq<byte>>)
    requires Projects(p, c, rendered)
    ensures p.atoms == [] <==> c.atoms == []
  {
    hide Chars, WfContent, DisplayOf, SpanAt;
  }

  // Where each part of the platform text lands.
  lemma {:induction false} Landing(p: Projection, c: InlineContent, rendered: seq<seq<byte>>, s: Composition,
                                   focus: Option<Caret>, raw: nat, l: nat)
    requires Projects(p, c, rendered) && WfContent(c) && c.atoms != []
    requires Active(c, s) && s.end <= |Chars(c.runs)| && IsBoundary(PlatformText(c, s), raw)
    requires InputToLayout(c, rendered, Some(s), focus, raw) == Some(l)
    ensures LayoutRange(c, rendered, s).Some?
    ensures var visual := LayoutRange(c, rendered, s).value; var len := |s.preedit|;
      var canonical := raw - len + (s.end - s.start);
      && (s.start <= raw <= s.start + len ==> visual.0 <= l <= visual.0 + len && l - visual.0 == raw - s.start)
      && (raw < s.start ==>
        l < visual.0 && ValidCaret(c, Caret(raw, 0)) && Shown(c, rendered, Caret(raw, 0)) == Some(l))
      && (raw > s.start + len ==> l > visual.0 + len && canonical >= 0 && ValidCaret(c, Caret(canonical, 0))
                                  && Shown(c, rendered, Caret(canonical, 0)) == Some(l - len + (visual.1 - visual.0)))
  {
    hide Chars, WfContent, Projects, Boundary, Shown, LayoutRange, ValidUtf8, CountAt;
    PlatformBoundary(c, s, raw);
    ActiveRange(p, c, rendered, s);
    if raw < s.start {
      ShownBefore(p, c, rendered, s, raw);
      StartOfLine(c, raw);
    } else if raw > s.start + |s.preedit| {
      var canonical := raw - |s.preedit| + (s.end - s.start);
      ShownAfter(p, c, rendered, s, canonical);
      StartOfLine(c, canonical);
    }
  }

  // Hit-testing a caret's own display byte finds the caret.
  lemma {:induction false} HitFindsCaret(p: Projection, c: InlineContent, rendered: seq<seq<byte>>, q: Caret, d: nat,
                                         hit: Option<InlinePoint>)
    requires Projects(p, c, rendered) && ValidCaret(c, q) && Shown(c, rendered, q) == Some(d)
    requires hit.Some? <==> InsideSpan(p, d) || (d <= |p.display| && IsBoundary(p.display, d))
    requires hit.Some? ==> ValidCaret(c, CaretOf(hit.value))
    requires hit.Some? && !InsideSpan(p, d) ==>
      CaretCut(c.atoms, CaretOf(hit.value)) <= |rendered| && DisplayIndex(c, rendered, CaretOf(hit.value)) == d
    ensures hit.Some? && CaretOf(hit.value) == q
  {
    hide Projects, FirstAt, CountAt, Chars, IsBoundary, DisplayIndex, Boundary, RenderedOk, WfContent;
    CaretOnBoundary(p, c, rendered, q);
    forall j | 0 <= j < |p.atoms|
      ensures !(p.atoms[j].start < d < p.atoms[j].end)
    {
      CaretOutsideSpans(p, c, rendered, q, j);
    }
    SpanFacts(p, c, rendered);
    RenderedFacts(p, c, rendered);
    DisplayInjective(c, rendered, q, CaretOf(hit.value));
  }

  // Where a pointer at display byte `d` lands: inside a rendering its atom's
  // offset, elsewhere the offset of the caret shown there, and nowhere else.
  ghost predicate HitsText(p: Projection, c: InlineContent, rendered: seq<seq<byte>>, d: nat, hit: Option<nat>) {
    && (hit.Some? <==> InsideSpan(p, d) || (d <= |p.display| && IsBoundary(p.display, d)))
    && (forall j :: 0 <= j < |p.atoms| && p.atoms[j].start <= d < p.atoms[j].end ==> hit == Some(p.atoms[j].offset))
    && (hit.Some? && !InsideSpan(p, d) ==> exists ordinal :: ShowsAt(c, rendered, Caret(hit.value, ordinal), d))
  }

  predicate ShowsAt(c: InlineContent, rendered: seq<seq<byte>>, q: Caret, d: nat) {
    ValidCaret(c, q) && CaretCut(c.atoms, q) <= |rendered| && DisplayIndex(c, rendered, q) == d
  }

  // The platform offset for layout byte `l` while composing: in the preedit its
  // own position, elsewhere the text hit there without the preedit.
  ghost predicate ComposedHit(p: Projection, c: InlineContent, rendered: seq<seq<byte>>, s: Composition, l: nat,
                              r: Option<nat>)
    requires LayoutRange(c, rendered, s).Some?
  {
    var visual, len := LayoutRange(c, rendered, s).value, |s.preedit|;
    if visual.0 <= l <= visual.0 + len then r == Some(s.start + l - visual.0)
    else if l < visual.0 then HitsText(p, c, rendered, l, r)
    else
      var original := l - len + (visual.1 - visual.0);
      original >= 0 && exists hit :: HitsText(p, c, rendered, original, hit) && r == Composed(s, hit)
  }

  function Composed(s: Composition, hit: Option<nat>): Option<nat> {
    if hit.None? || hit.value - (s.end - s.start) + |s.preedit| < 0 then None
    else Some(hit.value - (s.end - s.start) + |s.preedit|)
  }

  // `layout_byte_to_input` undoes `input_byte_to_layout` on every character
  // boundary of the platform text, composing or not.
  method LayoutByteToInput(p: Projection, composition: Option<Composition>, l: nat, ghost c: InlineContent,
                           ghost rendered: seq<seq<byte>>)
      returns (r: Option<nat>)
    requires Projects(p, c, rendered) && WfContent(c)
    requires composition.Some? ==> Active(c, composition.value) && composition.value.end <= |Chars(c.runs)|
    ensures composition.Some? ==> forall raw: nat, focus ::
      (&& IsBoundary(PlatformText(c, composition.value), raw)
       && InputToLayout(c, rendered, composition, focus, raw) == Some(l)) ==> r == Some(raw)
    ensures composition.None? ==> forall raw: nat, focus ::
      InputToLayout(c, rendered, None, focus, raw) == Some(l) ==> r == Some(raw)
    ensures c.atoms == [] ==> r == Some(l)
    ensures c.atoms != [] && composition.None? ==> HitsText(p, c, rendered, l, r)
    ensures c.atoms != [] && composition.Some? ==>
      LayoutRange(c, rendered, composition.value).Some? && ComposedHit(p, c, rendered, composition.value, l, r)
  {
    hide Projects, WfContent, Chars, Shown, LayoutRange, ValidCaret, DisplayIndex, IsBoundary, PlatformText;
    hide InputToLayout, Boundary, CountAt, ComposedHit, HitsText;
    SameAtomCount(p, c, rendered);
    if p.atoms == [] {
      forall raw: nat, focus | InputToLayout(c, rendered, composition, focus, raw) == Some(l)
        ensures raw == l
      {
        PlainInput(c, rendered, composition, focus, raw);
      }
      return Some(l);
    }
    if composition.Some? {
      var s := composition.value;
      r := ComposedToInput(p, s, l, c, rendered);
      return;
    }
    var hit := PointForHit(p, l, BeforeGlyph, c, rendered);
    forall raw: nat, focus | InputToLayout(c, rendered, None, focus, raw) == Some(l)
      ensures hit.Some? && hit.value.offset == raw
    {
      var q := IdleInput(c, rendered, focus, raw, l);
      HitFindsCaret(p, c, rendered, q, l, hit);
    }
    r := if hit.Some? then Some(hit.value.offset) else None;
    HitIsText(p, c, rendered, l, hit);
  }

  lemma HitIsComposed(p: Projection, c: InlineContent, rendered: seq<seq<byte>>, s: Composition, l: nat,
                      original: nat, hit: Option<nat>)
    requires LayoutRange(c, rendered, s).Some? && HitsText(p, c, rendered, original, hit)
    requires var visual, end := LayoutRange(c, rendered, s).value, LayoutRange(c, rendered, s).value.0 + |s.preedit|;
      && !(visual.0 <= l <= end)
      && original == if l > end then l - |s.preedit| + (visual.1 - visual.0) else l
    ensures var end := LayoutRange(c, rendered, s).value.0 + |s.preedit|;
      ComposedHit(p, c, rendered, s, l, if l > end then Composed(s, hit) else hit)
  {
    hide HitsText, LayoutRange, Composed;
  }

  // What a resolved pointer hit says about its offset.
  lemma {:induction false} HitIsText(p: Projection, c: InlineContent, rendered: seq<seq<byte>>, d: nat,
                                     hit: Option<InlinePoint>)
    requires forall j :: 0 <= j < |p.atoms| && p.atoms[j].start <= d < p.atoms[j].end ==>
      hit.Some? && hit.value.offset == p.atoms[j].offset
    requires hit.Some? ==> ValidCaret(c, CaretOf(hit.value))
    requires hit.Some? && !InsideSpan(p, d) ==>
      CaretCut(c.atoms, CaretOf(hit.value)) <= |rendered| && DisplayIndex(c, rendered, CaretOf(hit.value)) == d
    requires hit.Some? <==> InsideSpan(p, d) || (d <= |p.display| && IsBoundary(p.display, d))
    ensures HitsText(p, c, rendered, d, if hit.Some? then Some(hit.value.offset) else None)
  {
    hide ValidCaret, DisplayIndex, IsBoundary, CaretCut, InsideSpan;
    if hit.Some? && !InsideSpan(p, d) {
      assert ShowsAt(c, rendered, Caret(hit.value.offset, hit.value.ordinal), d);
    }
  }

  lemma PlainInput(c: InlineContent, rendered: seq<seq<byte>>, composition: Option<Composition>, focus: Option<Caret>,
                   raw: nat)
    requires c.atoms == [] && (composition.Some? ==> composition.value.start <= composition.value.end)
    ensures InputToLayout(c, rendered, composition, focus, raw) == Some(raw)
  {}

  // Without a composition a byte is shown at one of its carets.
  lemma IdleInput(c: InlineContent, rendered: seq<seq<byte>>, focus: Option<Caret>, raw: nat, l: nat) returns (q: Caret)
    requires c.atoms != [] && InputToLayout(c, rendered, None, focus, raw) == Some(l)
    ensures q.offset == raw && ValidCaret(c, q) && Shown(c, rendered, q) == Some(l)
  {
    hide ValidCaret, DisplayIndex, CaretCut;
    q := Caret(raw, if focus.Some? && focus.value.offset == raw then focus.value.ordinal else 0);
  }

  method ComposedToInput(p: Projection, s: Composition, l: nat, ghost c: InlineContent,
                         ghost rendered: seq<seq<byte>>) returns (r: Option<nat>)
    requires Projects(p, c, rendered) && WfContent(c) && c.atoms != [] && Active(c, s) && s.end <= |Chars(c.runs)|
    ensures forall raw: nat, focus ::
      IsBoundary(PlatformText(c, s), raw) && InputToLayout(c, rendered, Some(s), focus, raw) == Some(l) ==>
        r == Some(raw)
    ensures LayoutRange(c, rendered, s).Some? && ComposedHit(p, c, rendered, s, l, r)
  {
    hide Projects, WfContent, Chars, Shown, LayoutRange, ValidCaret, DisplayIndex, IsBoundary, PlatformText;
    hide InputToLayout, HitsText;
    ActiveRange(p, c, rendered, s);
    var range := CompositionLayoutRange(p, s, c, rendered);
    var visual, len := range.value, |s.preedit|;
    var end := visual.0 + len;
    if l >= visual.0 && l <= end {
      forall raw: nat, focus | IsBoundary(PlatformText(c, s), raw)
        && InputToLayout(c, rendered, Some(s), focus, raw) == Some(l)
        ensures raw == s.start + l - visual.0
      {
        Landing(p, c, rendered, s, focus, raw, l);
      }
      return Some(s.start + l - visual.0);
    }
    var suffix := l > end;
    var original := if suffix then l - len + (visual.1 - visual.0) else l;
    var hit := PointForHit(p, original, BeforeGlyph, c, rendered);
    forall raw: nat, focus | IsBoundary(PlatformText(c, s), raw)
      && InputToLayout(c, rendered, Some(s), focus, raw) == Some(l)
      ensures hit.Some? && hit.value.offset == if suffix then raw - len + (s.end - s.start) else raw
    {
      Landing(p, c, rendered, s, focus, raw, l);
      HitFindsCaret(p, c, rendered, Caret(if suffix then raw - len + (s.end - s.start) else raw, 0), original, hit);
    }
    ghost var text: Option<nat> := if hit.Some? then Some(hit.value.offset) else None;
    HitIsText(p, c, rendered, original, hit);
    HitIsComposed(p, c, rendered, s, l, original, text);
    if hit.None? {
      return None;
    }
    var back := if suffix then hit.value.offset - (s.end - s.start) + len else hit.value.offset;
    return if back < 0 then None else Some(back);
  }

  // ----- where each platform offset is shown

  // With no composition: at the focused gap when the focus is at this byte, else
  // before the atoms there; nowhere off a character boundary.
  lemma {:induction false} IdleShows(c: InlineContent, rendered: seq<seq<byte>>, focus: Option<Caret>, raw: nat)
    requires WfContent(c) && |rendered| == |c.atoms| && c.atoms != []
    ensures FirstAt(c.atoms, raw) + CountAt(c.atoms, raw) <= |rendered|
    ensures focus.Some? && focus.value.offset == raw ==>
      InputToLayout(c, rendered, None, focus, raw)
      == if Boundary(Chars(c.runs), raw) && focus.value.ordinal <= CountAt(c.atoms, raw)
         then Some(raw + Inserted(rendered, FirstAt(c.atoms, raw) + focus.value.ordinal)) else None
    ensures focus.None? || focus.value.offset != raw ==>
      InputToLayout(c, rendered, None, focus, raw)
      == if Boundary(Chars(c.runs), raw) then Some(raw + Inserted(rendered, FirstAt(c.atoms, raw))) else None
  {
    hide Chars, CharsOk, CanonicalRuns, Boundary, FirstAt, CountAt, Inserted;
    CountIsGap(c.atoms, raw);
  }

  // The display bytes the composition replaces.
  lemma {:induction false} ComposedRange(p: Projection, c: InlineContent, rendered: seq<seq<byte>>, s: Composition)
    requires Projects(p, c, rendered) && Active(c, s)
    ensures FirstAt(c.atoms, s.start) + s.atomIndex <= |rendered| && FirstAt(c.atoms, s.end) <= |rendered|
    ensures LayoutRange(c, rendered, s).Some?
    ensures var visual := LayoutRange(c, rendered, s).value;
      && visual.0 == s.start + Inserted(rendered, FirstAt(c.atoms, s.start) + s.atomIndex)
      && visual.1 == if s.start == s.end then visual.0 else s.end + Inserted(rendered, FirstAt(c.atoms, s.end))
  {
    hide Chars, WfContent, Boundary, Inserted, LayoutRange, Projects, FirstAt, CountAt, Shown;
    ActiveRange(p, c, rendered, s);
    ShownNumber(p, c, rendered, Caret(s.start, s.atomIndex));
    StartOfLine(c, s.end);
    ShownNumber(p, c, rendered, Caret(s.end, 0));
  }

  lemma {:induction false} ShownNumber(p: Projection, c: InlineContent, rendered: seq<seq<byte>>, q: Caret)
    requires Projects(p, c, rendered) && ValidCaret(c, q)
    ensures FirstAt(c.atoms, q.offset) + q.ordinal <= |rendered|
    ensures Shown(c, rendered, q) == Some(q.offset + Inserted(rendered, FirstAt(c.atoms, q.offset) + q.ordinal))
  {
    hide Chars, FirstAt, CountAt, Projects, Boundary, Inserted;
    SpanFacts(p, c, rendered);
    CutInRange(c, rendered, q);
  }

  // While composing: text before the preedit where it is shown anyway, the
  // preedit from the captured gap on, and what follows moved by the difference.
  lemma {:induction false} ComposedShows(p: Projection, c: InlineContent, rendered: seq<seq<byte>>, s: Composition,
                                         focus: Option<Caret>, raw: nat)
    requires Projects(p, c, rendered) && WfContent(c) && Active(c, s) && s.end <= |Chars(c.runs)| && c.atoms != []
      && IsBoundary(PlatformText(c, s), raw)
    ensures LayoutRange(c, rendered, s).Some?
    ensures var visual, len := LayoutRange(c, rendered, s).value, |s.preedit|;
      var r, canonical := InputToLayout(c, rendered, Some(s), focus, raw), raw - len + (s.end - s.start);
      && (raw < s.start ==>
            FirstAt(c.atoms, raw) <= |rendered| && r == Some(raw + Inserted(rendered, FirstAt(c.atoms, raw))))
      && (s.start <= raw <= s.start + len ==> r == Some(visual.0 + raw - s.start))
      && (raw > s.start + len ==>
            && canonical >= 0 && FirstAt(c.atoms, canonical) <= |rendered|
            && canonical + Inserted(rendered, FirstAt(c.atoms, canonical)) >= visual.1 - visual.0
            && r == Some(canonical + Inserted(rendered, FirstAt(c.atoms, canonical)) - (visual.1 - visual.0) + len))
  {
    hide Chars, WfContent, Boundary, FirstAt, CountAt, Inserted, LayoutRange, Projects, ValidUtf8, Shown, ValidCaret;
    hide IsBoundary, PlatformText;
    PlatformBoundary(c, s, raw);
    ActiveRange(p, c, rendered, s);
    if raw < s.start {
      StartOfLine(c, raw);
      ShownNumber(p, c, rendered, Caret(raw, 0));
    } else if raw > s.start + |s.preedit| {
      var canonical := raw - |s.preedit| + (s.end - s.start);
      ShownAfter(p, c, rendered, s, canonical);
      StartOfLine(c, canonical);
      ShownNumber(p, c, rendered, Caret(canonical, 0));
    }
  }
}
