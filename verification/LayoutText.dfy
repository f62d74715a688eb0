// The styled layout text: text runs, atom renderings and the spliced preedit
// (crates/xiaomu-gpui/src/block_view/display.rs, ime_geometry.rs).
module LayoutText {
  import opened Wrappers
  import opened Numbers
  import opened Text
  import opened Marks
  import opened Content
  import opened InlineEdit
  import opened Flat
  import opened Mapping
  import opened AtomDisplay
  import opened ImeGeometry

  // A styled stretch; the style is that of `marks`, underlined for a preedit.
  datatype Segment = Segment(start: nat, text: seq<byte>, marks: MarkSet, preedit: bool)

  // One laid-out byte with its style.
  datatype Glyph = Glyph(b: byte, marks: MarkSet, preedit: bool)

  function Glyphs(text: seq<byte>, marks: MarkSet, preedit: bool): (r: seq<Glyph>)
    ensures |r| == |text|
    ensures forall i :: 0 <= i < |text| ==> r[i] == Glyph(text[i], marks, preedit)
  {
    seq(|text|, i requires 0 <= i < |text| => Glyph(text[i], marks, preedit))
  }

  function Styled(segments: seq<Segment>): seq<Glyph> {
    if segments == [] then []
    else
      var last := segments[|segments| - 1];
      Styled(segments[..|segments| - 1]) + Glyphs(last.text, last.marks, last.preedit)
  }

  // The characters of text as glyphs.
  function Plain(cs: seq<Char>): (r: seq<Glyph>)
    ensures |r| == |cs|
    ensures forall i :: 0 <= i < |cs| ==> r[i] == Glyph(cs[i].b, cs[i].marks, false)
  {
    seq(|cs|, i requires 0 <= i < |cs| => Glyph(cs[i].b, cs[i].marks, false))
  }

  function BytesOf(glyphs: seq<Glyph>): (r: seq<byte>)
    ensures |r| == |glyphs|
    ensures forall i :: 0 <= i < |glyphs| ==> r[i] == glyphs[i].b
  {
    seq(|glyphs|, i requires 0 <= i < |glyphs| => glyphs[i].b)
  }

  lemma StyledPush(segments: seq<Segment>, segment: Segment)
    ensures Styled(segments + [segment]) == Styled(segments) + Glyphs(segment.text, segment.marks, segment.preedit)
  {
    assert (segments + [segment])[..|segments|] == segments;
  }

  // ----- atoms in their text

  // Renderings, with each atom's marks, spliced into the characters.
  function StyledDisplay(cs: seq<Char>, atoms: seq<Placement>, rendered: seq<seq<byte>>,
                         marks: seq<MarkSet>): seq<Glyph>
    requires |rendered| == |atoms| == |marks| && Placed(cs, atoms)
    decreases |atoms|
  {
    if atoms == [] then Plain(cs)
    else
      var n := |atoms| - 1;
      var at := atoms[n].offset;
      StyledDisplay(cs[..at], atoms[..n], rendered[..n], marks[..n]) + Glyphs(rendered[n], marks[n],
          false) + Plain(cs[at..])
  }

  // Its bytes are the display string.
  lemma {:induction false} StyledDisplayBytes(cs: seq<Char>, atoms: seq<Placement>, rendered: seq<seq<byte>>,
                                              marks: seq<MarkSet>)
    requires |rendered| == |atoms| == |marks| && Placed(cs, atoms)
    ensures WithinText(Bytes(cs), atoms)
    ensures BytesOf(StyledDisplay(cs, atoms, rendered, marks)) == DisplayOf(Bytes(cs), atoms, rendered)
    decreases |atoms|
  {
    if atoms == [] {
      assert BytesOf(Plain(cs)) == Bytes(cs);
    } else {
      var n := |atoms| - 1;
      var at := atoms[n].offset;
      StyledDisplayBytes(cs[..at], atoms[..n], rendered[..n], marks[..n]);
      assert Bytes(cs[..at]) == Bytes(cs)[..at];
      var front := StyledDisplay(cs[..at], atoms[..n], rendered[..n], marks[..n]);
      BytesOfThree(front, Glyphs(rendered[n], marks[n], false), Plain(cs[at..]));
      assert BytesOf(Glyphs(rendered[n], marks[n], false)) == rendered[n];
      assert BytesOf(Plain(cs[at..])) == Bytes(cs)[at..];
    }
  }

  lemma BytesOfThree(a: seq<Glyph>, b: seq<Glyph>, c: seq<Glyph>)
    ensures BytesOf(a + b + c) == BytesOf(a) + BytesOf(b) + BytesOf(c)
  {}

  lemma {:induction false} StyledTail(cs: seq<Char>, atoms: seq<Placement>, rendered: seq<seq<byte>>,
                                      marks: seq<MarkSet>, at: nat)
    requires |rendered| == |atoms| == |marks| && Placed(cs, atoms) && at <= |cs|
    requires forall i :: 0 <= i < |atoms| ==> atoms[i].offset <= at
    ensures Placed(cs[..at], atoms)
    ensures StyledDisplay(cs, atoms, rendered, marks)
      == StyledDisplay(cs[..at], atoms, rendered, marks) + Plain(cs[at..])
  {
    hide Plain;
    if atoms == [] {
      PlainSplit(cs, at);
    } else {
      var p := atoms[|atoms| - 1].offset;
      assert cs[..at][..p] == cs[..p];
      PlainSplit(cs[p..], at - p);
      assert cs[p..][..at - p] == cs[..at][p..] && cs[p..][at - p..] == cs[at..];
    }
  }

  lemma PlainSplit(cs: seq<Char>, at: nat)
    requires at <= |cs|
    ensures Plain(cs) == Plain(cs[..at]) + Plain(cs[at..])
  {}

  lemma {:induction false} StyledPushAtom(cs: seq<Char>, atoms: seq<Placement>, rendered: seq<seq<byte>>,
                                          marks: seq<MarkSet>, i: nat, cursor: nat)
    requires |rendered| == |atoms| == |marks| && Placed(cs, atoms) && i < |atoms|
    requires cursor <= atoms[i].offset && forall j :: 0 <= j < i ==> atoms[j].offset <= cursor
    ensures Placed(cs[..cursor], atoms[..i]) && Placed(cs[..atoms[i].offset], atoms[..i + 1])
    ensures StyledDisplay(cs[..atoms[i].offset], atoms[..i + 1], rendered[..i + 1], marks[..i + 1])
      == StyledDisplay(cs[..cursor], atoms[..i], rendered[..i], marks[..i]) + Plain(cs[cursor..atoms[i].offset])
         + Glyphs(rendered[i], marks[i], false)
  {
    hide Plain, Glyphs;
    var at := atoms[i].offset;
    StyledTail(cs[..at], atoms[..i], rendered[..i], marks[..i], cursor);
    assert cs[..at][..cursor] == cs[..cursor] && cs[..at][cursor..] == cs[cursor..at];
    assert atoms[..i + 1][..i] == atoms[..i] && rendered[..i + 1][..i] == rendered[..i]
      && marks[..i + 1][..i] == marks[..i];
    assert cs[..at][..at] == cs[..at] && cs[..at][at..] == [];
    assert Plain([]) == [];
  }

  // ----- the display byte by byte

  lemma {:induction false} StyledLength(cs: seq<Char>, atoms: seq<Placement>, rendered: seq<seq<byte>>,
                                        marks: seq<MarkSet>)
    requires |rendered| == |atoms| == |marks| && Placed(cs, atoms)
    ensures |StyledDisplay(cs, atoms, rendered, marks)| == |cs| + Inserted(rendered, |rendered|)
    decreases |atoms|
  {
    if atoms != [] {
      var n := |atoms| - 1;
      StyledLength(cs[..atoms[n].offset], atoms[..n], rendered[..n], marks[..n]);
      InsertedPrefix(rendered, n, n);
    }
  }

  // The last atom's part and the text after it.
  lemma {:induction false} StyledLast(cs: seq<Char>, atoms: seq<Placement>, rendered: seq<seq<byte>>,
                                      marks: seq<MarkSet>)
    requires |rendered| == |atoms| == |marks| && Placed(cs, atoms) && atoms != []
    ensures var n := |atoms| - 1; var at := atoms[n].offset; var glyphs := StyledDisplay(cs, atoms, rendered, marks);
      var start := at + Inserted(rendered, n);
      && Placed(cs[..at], atoms[..n]) && start + |rendered[n]| + (|cs| - at) == |glyphs|
      && glyphs[..start] == StyledDisplay(cs[..at], atoms[..n], rendered[..n], marks[..n])
      && glyphs[start..start + |rendered[n]|] == Glyphs(rendered[n], marks[n], false)
      && glyphs[start + |rendered[n]|..] == Plain(cs[at..])
  {
    hide Plain, Glyphs;
    var n := |atoms| - 1;
    var at := atoms[n].offset;
    StyledLength(cs[..at], atoms[..n], rendered[..n], marks[..n]);
    InsertedPrefix(rendered, n, n);
    StyledLength(cs, atoms, rendered, marks);
  }

  // A character is shown after the renderings at and before it, with its marks.
  lemma {:induction false} CharShown(cs: seq<Char>, atoms: seq<Placement>, rendered: seq<seq<byte>>,
                                     marks: seq<MarkSet>, i: nat, k: nat)
    requires |rendered| == |atoms| == |marks| && Placed(cs, atoms) && i < |cs| && CutsAt(atoms, i, k)
    ensures var glyphs := StyledDisplay(cs, atoms, rendered, marks);
      && i + Inserted(rendered, k) < |glyphs|
      && glyphs[i + Inserted(rendered, k)] == Glyph(cs[i].b, cs[i].marks, false)
    decreases |atoms|
  {
    hide StyledDisplay, Inserted, Plain;
    StyledLength(cs, atoms, rendered, marks);
    if atoms == [] {
      TextOnly(cs, rendered);
    } else {
      var n := |atoms| - 1;
      var at := atoms[n].offset;
      var glyphs := StyledDisplay(cs, atoms, rendered, marks);
      StyledLast(cs, atoms, rendered, marks);
      if i < at {
        CharShown(cs[..at], atoms[..n], rendered[..n], marks[..n], i, k);
        InsertedPrefix(rendered, n, k);
        var d := i + Inserted(rendered, k);
        assert glyphs[..at + Inserted(rendered, n)][d] == glyphs[d];
      } else {
        InsertedAt(rendered, k);
        var start := at + Inserted(rendered, n) + |rendered[n]|;
        assert glyphs[start..][i - at] == glyphs[start + (i - at)];
      }
    }
  }

  lemma TextOnly(cs: seq<Char>, rendered: seq<seq<byte>>)
    requires rendered == []
    ensures StyledDisplay(cs, [], [], []) == Plain(cs) && Inserted(rendered, 0) == 0
    ensures forall i :: 0 <= i < |cs| ==> Plain(cs)[i] == Glyph(cs[i].b, cs[i].marks, false)
  {}

  // A rendering is shown after the text and the renderings before it, with its
  // atom's marks.
  lemma {:induction false} AtomShown(cs: seq<Char>, atoms: seq<Placement>, rendered: seq<seq<byte>>,
                                     marks: seq<MarkSet>, j: nat, b: nat)
    requires |rendered| == |atoms| == |marks| && Placed(cs, atoms) && j < |atoms| && b < |rendered[j]|
    ensures var glyphs := StyledDisplay(cs, atoms, rendered, marks);
      var d := atoms[j].offset + Inserted(rendered, j) + b;
      d < |glyphs| && glyphs[d] == Glyph(rendered[j][b], marks[j], false)
    decreases |atoms|
  {
    hide StyledDisplay, Inserted;
    var n := |atoms| - 1;
    var glyphs := StyledDisplay(cs, atoms, rendered, marks);
    StyledLast(cs, atoms, rendered, marks);
    var start := atoms[n].offset + Inserted(rendered, n);
    if j < n {
      AtomShown(cs[..atoms[n].offset], atoms[..n], rendered[..n], marks[..n], j, b);
      InsertedPrefix(rendered, n, j);
      var d := atoms[j].offset + Inserted(rendered, j) + b;
      assert glyphs[..start][d] == glyphs[d];
    } else {
      assert glyphs[start..start + |rendered[n]|][b] == glyphs[start + b];
    }
  }

  // ----- text runs

  // `push_styled_text`: the characters [start, end), run by run.
  method PushStyledText(runs: seq<TextRun>, start: nat, end: nat, segments: seq<Segment>) returns (r: seq<Segment>)
    requires CanonicalRuns(runs) && CharsOk(Chars(runs)) && start <= end <= |Chars(runs)|
    requires Boundary(Chars(runs), start) && Boundary(Chars(runs), end)
    ensures Styled(r) == Styled(segments) + Plain(Chars(runs)[start..end])
  {
    hide Chars, CharsOk, CanonicalRuns, Boundary, Plain, Glyphs, Styled, IsBoundary;
    r := segments;
    ghost var cs := Chars(runs);
    if start >= end {
      NothingPlain(cs, start);
      assert Styled(segments) + [] == Styled(segments);
      return;
    }
    NoRuns();
    assert runs[..0] == [];
    NothingPlain(cs, start);
    assert Styled(r) + [] == Styled(r);
    var cursor := 0;
    for i := 0 to |runs|
      invariant cursor == |Chars(runs[..i])| <= |cs|
      invariant Styled(r) == Styled(segments) + Plain(cs[start..Max(start, Min(end, cursor))])
    {
      var runStart, runEnd := cursor, cursor + |runs[i].text|;
      RunIsSlice(runs, i);
      cursor := runEnd;
      var from, to := Max(start, runStart), Min(end, runEnd);
      if from >= to {
        continue;
      }
      OverlapBoundaries(runs, i, start, end);
      var piece := Segment(0, Slice(runs[i].text, from - runStart, to - runStart), runs[i].marks, false);
      OverlapGlyphs(cs, runs[i], runStart, start, from, to);
      StyledPush(r, piece);
      Associate(Styled(segments), Plain(cs[start..from]), Plain(cs[from..to]));
      r := r + [piece];
    }
    assert runs[..|runs|] == runs;
  }

  lemma NothingPlain(cs: seq<Char>, x: nat)
    requires x <= |cs|
    ensures Plain(cs[x..x]) == []
  {}

  lemma Associate<T>(a: seq<T>, b: seq<T>, c: seq<T>)
    ensures a + b + c == a + (b + c)
  {}

  lemma {:induction false} OverlapBoundaries(runs: seq<TextRun>, i: nat, start: nat, end: nat)
    requires CanonicalRuns(runs) && CharsOk(Chars(runs)) && i < |runs|
    requires Boundary(Chars(runs), start) && Boundary(Chars(runs), end)
    ensures var lo := |Chars(runs[..i])|; var hi := lo + |runs[i].text|; var from, to := Max(start, lo), Min(end, hi);
      from < to ==> lo <= from && to <= hi && IsBoundary(runs[i].text, from - lo) && IsBoundary(runs[i].text, to - lo)
  {
    hide Chars, CharsOk, CanonicalRuns, Boundary;
    var lo := |Chars(runs[..i])|;
    var hi := lo + |runs[i].text|;
    if lo <= start <= hi {
      BoundaryWithinRun(runs, i, start);
    }
    if lo <= end <= hi {
      BoundaryWithinRun(runs, i, end);
    }
  }

  lemma {:induction false} OverlapGlyphs(cs: seq<Char>, run: TextRun, lo: nat, start: nat, from: nat, to: nat)
    requires lo + |run.text| <= |cs| && Marked(run.text, run.marks) == cs[lo..lo + |run.text|]
    requires start <= from && lo <= from < to <= lo + |run.text|
    ensures Glyphs(run.text[from - lo..to - lo], run.marks, false) == Plain(cs[from..to])
    ensures Plain(cs[start..from]) + Plain(cs[from..to]) == Plain(cs[start..to])
  {
    hide Plain, Glyphs;
    PlainBetween(cs, start, from, to);
    var chars, text := cs[from..to], run.text[from - lo..to - lo];
    forall k | 0 <= k < |chars|
      ensures chars[k] == Char(text[k], run.marks)
    {
      assert chars[k] == cs[from + k] == cs[lo..lo + |run.text|][from - lo + k]
        == Marked(run.text, run.marks)[from - lo + k];
    }
    RunGlyphs(chars, text, run.marks);
  }

  lemma RunGlyphs(cs: seq<Char>, text: seq<byte>, marks: MarkSet)
    requires |cs| == |text| && forall k :: 0 <= k < |cs| ==> cs[k] == Char(text[k], marks)
    ensures Glyphs(text, marks, false) == Plain(cs)
  {}

  lemma PlainBetween(cs: seq<Char>, i: nat, j: nat, k: nat)
    requires i <= j <= k <= |cs|
    ensures Plain(cs[i..j]) + Plain(cs[j..k]) == Plain(cs[i..k])
  {
    hide Plain;
    PlainSplit(cs[i..k], j - i);
    assert cs[i..k][..j - i] == cs[i..j] && cs[i..k][j - i..] == cs[j..k];
  }

  // ----- normalized segment lists

  // Each segment starts where the text so far ends.
  predicate Numbered(segments: seq<Segment>) {
    forall k :: 0 <= k < |segments| ==> segments[k].start == |Styled(segments[..k])|
  }

  // Same text and style, whatever the numbering.
  predicate SameStyle(a: Segment, b: Segment) {
    a.text == b.text && a.marks == b.marks && a.preedit == b.preedit
  }

  lemma {:induction false} SameStyled(a: seq<Segment>, b: seq<Segment>)
    requires |a| == |b| && forall k :: 0 <= k < |a| ==> SameStyle(a[k], b[k])
    ensures Styled(a) == Styled(b)
  {
    if a != [] {
      SameStyled(a[..|a| - 1], b[..|b| - 1]);
    }
  }

  // `normalize_segments`: the concatenated text, and the segments renumbered.
  method NormalizeSegments(segments: seq<Segment>) returns (text: seq<byte>, r: seq<Segment>)
    ensures text == BytesOf(Styled(segments))
    ensures |r| == |segments| && (forall k :: 0 <= k < |r| ==> SameStyle(r[k], segments[k])) && Numbered(r)
    ensures Styled(r) == Styled(segments)
  {
    hide Glyphs, Styled;
    text, r := [], [];
    NothingStyled();
    assert segments[..0] == [];
    for i := 0 to |segments|
      invariant text == BytesOf(Styled(segments[..i])) && Styled(r) == Styled(segments[..i])
      invariant |r| == i && forall k :: 0 <= k < i ==> SameStyle(r[k], segments[k])
      invariant Numbered(r)
    {
      var segment := segments[i].(start := |text|);
      assert segments[..i + 1] == segments[..i] + [segments[i]];
      StyledPush(segments[..i], segments[i]);
      StyledPush(r, segment);
      BytesOfPush(Styled(segments[..i]), segments[i]);
      NumberedPush(r, segment);
      text := text + segment.text;
      r := r + [segment];
    }
    assert segments[..|segments|] == segments;
  }

  lemma NothingStyled()
    ensures Styled([]) == [] && BytesOf([]) == [] && Numbered([])
  {}

  lemma BytesOfPush(glyphs: seq<Glyph>, segment: Segment)
    ensures BytesOf(glyphs + Glyphs(segment.text, segment.marks, segment.preedit)) == BytesOf(glyphs) + segment.text
  {}

  lemma NumberedPush(segments: seq<Segment>, segment: Segment)
    requires Numbered(segments) && segment.start == |Styled(segments)|
    ensures Numbered(segments + [segment])
  {
    hide Styled;
    var more := segments + [segment];
    forall k | 0 <= k < |more|
      ensures more[k].start == |Styled(more[..k])|
    {
      if k < |segments| {
        assert more[..k] == segments[..k];
      } else {
        assert more[..k] == segments;
      }
    }
  }

  // ----- the projected paragraph

  function MarksOf(p: Projection): (r: seq<MarkSet>)
    ensures |r| == |p.atoms|
    ensures forall i :: 0 <= i < |r| ==> r[i] == p.atoms[i].marks
  {
    seq(|p.atoms|, i requires 0 <= i < |p.atoms| => p.atoms[i].marks)
  }

  // The segments drawn so far show the first `i` atoms and the text up to `cursor`.
  ghost predicate Drawn(c: InlineContent, rendered: seq<seq<byte>>, marks: seq<MarkSet>, segments: seq<Segment>,
                        i: nat, cursor: nat) {
    && |rendered| == |c.atoms| == |marks| && i <= |c.atoms|
    && cursor == (if i == 0 then 0 else c.atoms[i - 1].offset) && cursor <= |Chars(c.runs)|
    && Placed(Chars(c.runs)[..cursor], c.atoms[..i])
    && Styled(segments) == StyledDisplay(Chars(c.runs)[..cursor], c.atoms[..i], rendered[..i], marks[..i])
  }

  lemma {:induction false} DrawStep(c: InlineContent, rendered: seq<seq<byte>>, marks: seq<MarkSet>,
                                    segments: seq<Segment>, i: nat, cursor: nat, pushed: seq<Segment>, piece: Segment)
    requires Drawn(c, rendered, marks, segments, i, cursor) && Placed(Chars(c.runs), c.atoms)
    requires i < |c.atoms| && cursor <= c.atoms[i].offset <= |Chars(c.runs)|
    requires forall j :: 0 <= j < i ==> c.atoms[j].offset <= cursor
    requires Styled(pushed) == Styled(segments) + Plain(Chars(c.runs)[cursor..c.atoms[i].offset])
    requires piece.text == rendered[i] && piece.marks == marks[i] && !piece.preedit
    ensures Drawn(c, rendered, marks, pushed + [piece], i + 1, c.atoms[i].offset)
  {
    hide Chars, Styled, StyledDisplay, Plain, Glyphs, Placed;
    StyledPush(pushed, piece);
    StyledPushAtom(Chars(c.runs), c.atoms, rendered, marks, i, cursor);
  }

  lemma {:induction false} DrawEnd(c: InlineContent, rendered: seq<seq<byte>>, marks: seq<MarkSet>,
                                   segments: seq<Segment>, cursor: nat, pushed: seq<Segment>)
    requires Drawn(c, rendered, marks, segments, |c.atoms|, cursor) && Placed(Chars(c.runs), c.atoms)
    requires forall j :: 0 <= j < |c.atoms| ==> c.atoms[j].offset <= cursor
    requires Styled(pushed) == Styled(segments) + Plain(Chars(c.runs)[cursor..|Chars(c.runs)|])
    ensures Styled(pushed) == StyledDisplay(Chars(c.runs), c.atoms, rendered, marks)
  {
    hide Chars, Styled, StyledDisplay, Plain, Placed;
    assert c.atoms[..|c.atoms|] == c.atoms && rendered[..|rendered|] == rendered && marks[..|marks|] == marks;
    StyledTail(Chars(c.runs), c.atoms, rendered, marks, cursor);
    assert Chars(c.runs)[cursor..|Chars(c.runs)|] == Chars(c.runs)[cursor..];
  }

  lemma AtomsUpTo(c: InlineContent, i: nat)
    requires WfContent(c) && i <= |c.atoms|
    ensures forall j :: 0 <= j < i ==> c.atoms[j].offset <= (if i == 0 then 0 else c.atoms[i - 1].offset)
    ensures i > 0 ==> c.atoms[i - 1].offset <= |Chars(c.runs)| && Boundary(Chars(c.runs), c.atoms[i - 1].offset)
    ensures Boundary(Chars(c.runs), 0) && Boundary(Chars(c.runs), |Chars(c.runs)|)
    ensures i < |c.atoms| ==> (if i == 0 then 0 else c.atoms[i - 1].offset) <= c.atoms[i].offset <= |Chars(c.runs)|
    ensures i < |c.atoms| ==> Boundary(Chars(c.runs), c.atoms[i].offset)
  {
    hide Chars, CharsOk, CanonicalRuns;
  }

  // `project_atom_display_content`: the segments carry the styled display, and
  // their text is the display string.
  method ProjectAtomDisplay(c: InlineContent, p: Projection, ghost rendered: seq<seq<byte>>)
    returns (text: seq<byte>, r: seq<Segment>)
    requires Projects(p, c, rendered)
    ensures |rendered| == |c.atoms| == |p.atoms| && Placed(Chars(c.runs), c.atoms)
    ensures Styled(r) == StyledDisplay(Chars(c.runs), c.atoms, rendered, MarksOf(p))
    ensures text == p.display && text == BytesOf(Styled(r)) && Numbered(r)
  {
    hide Projects, Chars, Styled, Plain, Glyphs, WfContent, StyledDisplay, Boundary, Drawn, MarksOf, Placed,
      Numbered, WithinText, Bytes, BytesOf, DisplayOf, CanonicalRuns, CharsOk;
    ProjectionParts(p, c, rendered);
    ghost var marks := MarksOf(p);
    var segments: seq<Segment> := [];
    var cursor := 0;
    DrawNothing(c, rendered, marks);
    for i := 0 to |p.atoms|
      invariant Drawn(c, rendered, marks, segments, i, cursor)
      invariant cursor == if i == 0 then 0 else c.atoms[i - 1].offset
    {
      var atom := p.atoms[i];
      AtomsUpTo(c, i);
      RenderedSlice(p, c, rendered, i);
      var pushed := PushStyledText(c.runs, cursor, atom.offset, segments);
      var piece := Segment(0, p.display[atom.start..atom.end], atom.marks, false);
      DrawStep(c, rendered, marks, segments, i, cursor, pushed, piece);
      segments := pushed + [piece];
      cursor := atom.offset;
    }
    AtomsUpTo(c, |c.atoms|);
    var all := PushStyledText(c.runs, cursor, |p.text|, segments);
    DrawEnd(c, rendered, marks, segments, cursor, all);
    text, r := NormalizeSegments(all);
    StyledDisplayBytes(Chars(c.runs), c.atoms, rendered, marks);
  }

  lemma DrawNothing(c: InlineContent, rendered: seq<seq<byte>>, marks: seq<MarkSet>)
    requires |rendered| == |c.atoms| == |marks|
    ensures Drawn(c, rendered, marks, [], 0, 0)
  {
    hide Chars;
    assert rendered[..0] == [] && marks[..0] == [] && c.atoms[..0] == [];
  }

  lemma {:induction false} ProjectionParts(p: Projection, c: InlineContent, rendered: seq<seq<byte>>)
    requires Projects(p, c, rendered)
    ensures Placed(Chars(c.runs), c.atoms) && WfContent(c) && CanonicalRuns(c.runs) && CharsOk(Chars(c.runs))
    ensures |rendered| == |c.atoms| == |p.atoms| && |p.text| == |Chars(c.runs)|
    ensures WithinText(p.text, c.atoms) && p.text == Bytes(Chars(c.runs))
      && p.display == DisplayOf(p.text, c.atoms, rendered)
  {
    hide Chars, DisplayOf, CharsOk, CanonicalRuns, SpanAt, RenderedOk;
  }

  lemma {:induction false} RenderedSlice(p: Projection, c: InlineContent, rendered: seq<seq<byte>>, i: nat)
    requires Projects(p, c, rendered) && i < |p.atoms|
    ensures i < |rendered| == |c.atoms| && p.atoms[i].offset == c.atoms[i].offset && MarksOf(p)[i] == p.atoms[i].marks
    ensures p.atoms[i].start <= p.atoms[i].end <= |p.display|
    ensures p.display[p.atoms[i].start..p.atoms[i].end] == rendered[i]
  {
    hide Projects, Inserted, DisplayOf, Chars;
    SpanFacts(p, c, rendered);
    RenderedFacts(p, c, rendered);
    DisplaySpan(p.text, c.atoms, rendered, i);
  }

  // ----- the preedit spliced in

  // Where a segment lies in the styled text.
  lemma {:induction false} SegmentAt(segments: seq<Segment>, k: nat)
    requires Numbered(segments) && k < |segments|
    ensures var s := segments[k];
      && s.start + |s.text| <= |Styled(segments)|
      && Styled(segments)[s.start..s.start + |s.text|] == Glyphs(s.text, s.marks, s.preedit)
      && Styled(segments[..k + 1]) == Styled(segments)[..s.start + |s.text|]
        && Styled(segments[..k]) == Styled(segments)[..s.start]
    decreases |segments| - k
  {
    hide Glyphs, Styled;
    var s := segments[k];
    assert segments[..k + 1] == segments[..k] + [s];
    StyledPush(segments[..k], s);
    if k + 1 == |segments| {
      assert segments[..k + 1] == segments;
    } else {
      SegmentAt(segments, k + 1);
      assert segments[k + 1].start == |Styled(segments[..k + 1])|;
    }
  }

  // The styled text with `preedit` in place of [start, end).
  function SplicedGlyphs(glyphs: seq<Glyph>, start: nat, end: nat, preedit: seq<byte>, marks: MarkSet): seq<Glyph>
    requires start <= end <= |glyphs|
  {
    glyphs[..start] + Glyphs(preedit, marks, true) + glyphs[end..]
  }

  // The segments' part before `limit`.
  method KeepBefore(segments: seq<Segment>, limit: nat) returns (r: seq<Segment>)
    requires Numbered(segments) && limit <= |Styled(segments)|
    ensures Styled(r) == Styled(segments)[..limit]
  {
    hide Styled, Numbered;
    r := [];
    NothingStyled();
    for k := 0 to |segments|
      invariant |Styled(segments[..k])| <= |Styled(segments)|
      invariant Styled(r) == Styled(segments)[..Min(limit, |Styled(segments[..k])|)]
    {
      SegmentAt(segments, k);
      var segment := segments[k];
      var end := Min(segment.start + |segment.text|, limit);
      GlyphsSlice(segment, 0, if segment.start < end then end - segment.start else 0);
      if segment.start < end {
        var piece := segment.(text := segment.text[..end - segment.start]);
        StyledPush(r, piece);
        SliceParts(Styled(segments), segment.start, end, segment.start + |segment.text|);
        r := r + [piece];
      }
    }
    assert segments[..|segments|] == segments;
  }

  // The segments' part from `limit` on.
  method KeepAfter(segments: seq<Segment>, limit: nat, r0: seq<Segment>) returns (r: seq<Segment>)
    requires Numbered(segments) && limit <= |Styled(segments)|
    ensures Styled(r) == Styled(r0) + Styled(segments)[limit..]
  {
    hide Styled, Numbered;
    r := r0;
    assert segments[..0] == [];
    NothingStyled();
    assert Styled(segments)[limit..Max(limit, 0)] == [];
    for k := 0 to |segments|
      invariant |Styled(segments[..k])| <= |Styled(segments)|
      invariant Styled(r) == Styled(r0) + Styled(segments)[limit..Max(limit, |Styled(segments[..k])|)]
    {
      SegmentAt(segments, k);
      var segment := segments[k];
      var start := Max(segment.start, limit);
      var end := segment.start + |segment.text|;
      if start < end {
        var piece := segment.(text := segment.text[start - segment.start..]);
        AfterStep(segments, r0, r, segment, limit, start, piece);
        r := r + [piece];
      }
    }
    assert segments[..|segments|] == segments;
  }

  lemma {:induction false} AfterStep(segments: seq<Segment>, r0: seq<Segment>, r: seq<Segment>, segment: Segment,
                                     limit: nat, start: nat, piece: Segment)
    requires segment.start <= start && limit <= start < segment.start + |segment.text| <= |Styled(segments)|
    requires Styled(segments)[segment.start..segment.start + |segment.text|]
      == Glyphs(segment.text, segment.marks, segment.preedit)
    requires Styled(r) == Styled(r0) + Styled(segments)[limit..start]
    requires piece == segment.(text := segment.text[start - segment.start..])
    ensures Styled(r + [piece]) == Styled(r0) + Styled(segments)[limit..segment.start + |segment.text|]
  {
    hide Styled, Glyphs;
    var end := segment.start + |segment.text|;
    GlyphsSlice(segment, start - segment.start, |segment.text|);
    StyledPush(r, piece);
    SliceParts(Styled(segments), segment.start, start, end);
    SliceParts(Styled(segments), limit, start, end);
    Associate(Styled(r0), Styled(segments)[limit..start], Styled(segments)[start..end]);
  }

  lemma GlyphsSlice(s: Segment, i: nat, j: nat)
    requires i <= j <= |s.text|
    ensures Glyphs(s.text[i..j], s.marks, s.preedit) == Glyphs(s.text, s.marks, s.preedit)[i..j]
    ensures s.text[..j] == s.text[0..j] && (j == |s.text| ==> s.text[i..] == s.text[i..j])
  {}

  // `splice_preedit`: display prefix, preedit, display suffix, styles included.
  method SplicePreedit(segments: seq<Segment>, start: nat, end: nat, preedit: seq<byte>, marks: MarkSet)
      returns (text: seq<byte>, r: seq<Segment>)
    requires Numbered(segments) && start <= end <= |Styled(segments)|
    ensures Styled(r) == SplicedGlyphs(Styled(segments), start, end, preedit, marks)
    ensures text == BytesOf(Styled(segments))[..start] + preedit + BytesOf(Styled(segments))[end..] && Numbered(r)
  {
    hide Styled, Numbered, Glyphs;
    var result := KeepBefore(segments, start);
    var shown := Segment(0, preedit, marks, true);
    StyledPush(result, shown);
    result := result + [shown];
    result := KeepAfter(segments, end, result);
    text, r := NormalizeSegments(result);
    SplicedBytes(Styled(segments), start, end, preedit, marks);
  }

  lemma SplicedBytes(glyphs: seq<Glyph>, start: nat, end: nat, preedit: seq<byte>, marks: MarkSet)
    requires start <= end <= |glyphs|
    ensures BytesOf(SplicedGlyphs(glyphs, start, end, preedit, marks))
      == BytesOf(glyphs)[..start] + preedit + BytesOf(glyphs)[end..]
  {}

  // ----- atom ranges in the layout

  // Exactly the spliced preedit is marked as such, and it takes the given marks.
  lemma PreeditShown(glyphs: seq<Glyph>, start: nat, end: nat, preedit: seq<byte>, marks: MarkSet, d: nat)
    requires start <= end <= |glyphs| && d < |glyphs| - (end - start) + |preedit|
    ensures var spliced := SplicedGlyphs(glyphs, start, end, preedit, marks);
      && |spliced| == |glyphs| - (end - start) + |preedit|
      && spliced[d] == if d < start then glyphs[d]
                       else if d < start + |preedit| then Glyph(preedit[d - start], marks, true)
                       else glyphs[d - |preedit| + (end - start)]
  {}

  // The layout text: the display, or the display with the preedit spliced in.
  function LaidOut(display: seq<byte>, splice: Option<((nat, nat), seq<byte>)>): seq<byte>
    requires splice.Some? ==> splice.value.0.0 <= splice.value.0.1 <= |display|
  {
    if splice.None? then display
    else display[..splice.value.0.0] + splice.value.1 + display[splice.value.0.1..]
  }

  // Where an atom's rendering went, if it is still shown.
  function ShiftedRange(start: nat, end: nat, splice: Option<((nat, nat), seq<byte>)>): Option<(nat, nat)>
    requires splice.Some? ==> splice.value.0.0 <= splice.value.0.1
  {
    if splice.None? then Some((start, end))
    else
      var base, len := splice.value.0, |splice.value.1|;
      if end <= base.0 then Some((start, end))
      else if start >= base.1 then
        // Unsigned in the source: the base range ends by `start`.
        var removed := base.1 - base.0;
        if start < removed || end < removed then None else Some((start - removed + len, end - removed + len))
      else None
  }

  lemma {:induction false} ShiftedShows(display: seq<byte>, start: nat, end: nat,
                                        splice: Option<((nat, nat), seq<byte>)>)
    requires splice.Some? ==> splice.value.0.0 <= splice.value.0.1 <= |display|
    requires start <= end <= |display|
    ensures var range := ShiftedRange(start, end, splice); var layout := LaidOut(display, splice);
      && (range.Some? ==> range.value.0 <= range.value.1 <= |layout|)
      && (range.Some? ==> layout[range.value.0..range.value.1] == display[start..end])
      && (range.Some? <==> splice.None? || end <= splice.value.0.0 || start >= splice.value.0.1)
  {
    if splice.Some? {
      var base, preedit := splice.value.0, splice.value.1;
      var layout := LaidOut(display, splice);
      if end <= base.0 {
        assert layout[start..end] == display[start..end];
      } else if start >= base.1 {
        var shift := |preedit| - (base.1 - base.0);
        assert forall k :: start <= k < end ==> layout[k + shift] == display[k];
        assert layout[start + shift..end + shift] == display[start..end];
      }
    }
  }

  // A chip the composition does not overlap.
  predicate Visible(span: AtomSpan, splice: Option<((nat, nat), seq<byte>)>) {
    !span.hardBreak && (splice.None? || span.end <= splice.value.0.0 || span.start >= splice.value.0.1)
  }

  // A chip of the projection with the layout range holding its rendered bytes.
  predicate ShowsChip(p: Projection, splice: Option<((nat, nat), seq<byte>)>, span: AtomSpan, range: (nat, nat))
    requires splice.Some? ==> splice.value.0.0 <= splice.value.0.1 <= |p.display|
  {
    && span in p.atoms && !span.hardBreak && span.start <= span.end <= |p.display|
    && range.0 <= range.1 <= |LaidOut(p.display, splice)|
    && LaidOut(p.display, splice)[range.0..range.1] == p.display[span.start..span.end]
  }

  // The visible chips in order, those after the composition moved by what it
  // adds to the layout.
  function Chips(atoms: seq<AtomSpan>, splice: Option<((nat, nat), seq<byte>)>): seq<(AtomSpan, (int, int))> {
    if atoms == [] then []
    else
      var n := |atoms| - 1;
      var atom := atoms[n];
      var moved := if splice.None? || atom.end <= splice.value.0.0 then 0
                   else |splice.value.1| - (splice.value.0.1 - splice.value.0.0);
      Chips(atoms[..n], splice)
        + if Visible(atom, splice) then [(atom, (atom.start + moved, atom.end + moved))] else []
  }

  predicate IsBetween(d: nat, start: nat, end: nat) {
    start <= d < end
  }

  // A chip is hidden exactly when the replaced range holds one of its bytes or,
  // being empty, lies inside it.
  lemma VisibleMeans(span: AtomSpan, base: (nat, nat), preedit: seq<byte>)
    requires base.0 <= base.1 && span.start < span.end && !span.hardBreak
    ensures Visible(span, Some((base, preedit))) <==>
      if base.0 < base.1 then forall d: nat :: IsBetween(d, span.start, span.end) ==> !IsBetween(d, base.0, base.1)
      else !(span.start < base.0 < span.end)
  {
    if base.0 < base.1 && !(span.end <= base.0 || span.start >= base.1) {
      var d := if span.start < base.0 then base.0 else span.start;
      assert IsBetween(d, span.start, span.end) && IsBetween(d, base.0, base.1);
    }
  }

  // `layout_atom_spans`: every chip not replaced by the composition, with the
  // range that holds its rendered bytes in the layout text.
  method LayoutAtomSpans(p: Projection, composition: Option<Composition>, ghost c: InlineContent,
                         ghost rendered: seq<seq<byte>>)
      returns (r: seq<(AtomSpan, (nat, nat))>, ghost splice: Option<((nat, nat), seq<byte>)>)
    requires Projects(p, c, rendered) && (composition.Some? ==> Active(c, composition.value))
    ensures splice == if composition.Some? && LayoutRange(c, rendered, composition.value).Some?
                      then Some((LayoutRange(c, rendered, composition.value).value, composition.value.preedit))
                        else None
    ensures splice.Some? ==> splice.value.0.0 <= splice.value.0.1 <= |p.display|
    ensures forall k :: 0 <= k < |r| ==> ShowsChip(p, splice, r[k].0, r[k].1)
    ensures r == Chips(p.atoms, splice)
  {
    hide Projects, LayoutRange, Active, LaidOut, ShowsChip;
    splice := None;
    var shown: Option<((nat, nat), seq<byte>)> := None;
    if composition.Some? {
      var range := CompositionLayoutRange(p, composition.value, c, rendered);
      if range.Some? {
        shown := Some((range.value, composition.value.preedit));
        RangeInDisplay(p, c, rendered, composition.value);
      }
    }
    splice := shown;
    r := [];
    for i := 0 to |p.atoms|
      invariant forall k :: 0 <= k < |r| ==> ShowsChip(p, splice, r[k].0, r[k].1)
      invariant r == Chips(p.atoms[..i], splice)
    {
      var atom := p.atoms[i];
      assert p.atoms[..i + 1][..i] == p.atoms[..i];
      RenderedSlice(p, c, rendered, i);
      ShiftedShows(p.display, atom.start, atom.end, shown);
      if !atom.hardBreak {
        var range := ShiftedRange(atom.start, atom.end, shown);
        if range.Some? {
          ChipShows(p, splice, atom, range.value);
          r := r + [(atom, range.value)];
        }
      }
    }
    assert p.atoms[..|p.atoms|] == p.atoms;
  }

  lemma ChipShows(p: Projection, splice: Option<((nat, nat), seq<byte>)>, span: AtomSpan, range: (nat, nat))
    requires splice.Some? ==> splice.value.0.0 <= splice.value.0.1 <= |p.display|
    requires span in p.atoms && !span.hardBreak && span.start <= span.end <= |p.display|
    requires range.0 <= range.1 <= |LaidOut(p.display, splice)|
    requires LaidOut(p.display, splice)[range.0..range.1] == p.display[span.start..span.end]
    ensures ShowsChip(p, splice, span, range)
  {}

  lemma {:induction false} RangeInDisplay(p: Projection, c: InlineContent, rendered: seq<seq<byte>>, s: Composition)
    requires Projects(p, c, rendered) && Active(c, s) && LayoutRange(c, rendered, s).Some?
    ensures LayoutRange(c, rendered, s).value.0 <= LayoutRange(c, rendered, s).value.1 <= |p.display|
  {
    hide Projects, Chars, FirstAt, CountAt, Boundary, DisplayIndex;
    assert ValidCaret(c, Caret(s.start, s.atomIndex));
    StartOfLine(c, s.end);
    CaretOnBoundary(p, c, rendered, Caret(s.start, s.atomIndex));
    CaretOnBoundary(p, c, rendered, Caret(s.end, 0));
  }
}
