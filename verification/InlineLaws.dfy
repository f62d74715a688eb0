// Edits and maps agree: an accepted mixed-inline replacement is one splice of
// the item sequence, and the step map is the index map of that splice.
module InlineLaws {
  import opened Wrappers
  import opened Text
  import opened Marks
  import opened Content
  import opened InlineEdit
  import opened Flat
  import opened Mapping

  // The caret of a point within its node.
  function CaretOf(at: InlinePoint): Caret {
    Caret(at.offset, at.ordinal)
  }

  // Where an index goes when items [at, at + removed) become `added` items.
  // The two ends of the replaced stretch are the two readings of the edited gap.
  function SpliceIndex(x: nat, at: nat, removed: nat, added: nat, bias: MapBias): nat {
    if x < at then x
    else if x > at && x >= at + removed then x - removed + added
    else if bias == End then at + added
    else at
  }

  lemma {:induction false} MovedFirstAt(atoms: seq<Placement>, cut: nat, start: nat, end: nat, len: nat, x: nat)
    requires SortedAtoms(atoms) && start <= end
    requires CutsAtoms(atoms, start, cut) && ClearFrom(atoms, cut, end)
    ensures FirstAt(MovedAtoms(atoms, cut, start, end, len), x) ==
      if x <= start then FirstAt(atoms, x)
      else if x <= start + len then cut
      else FirstAt(atoms, x - start - len + end)
    ensures SortedAtoms(MovedAtoms(atoms, cut, start, end, len))
  {
    hide FirstAt, MovedAtoms;
    var moved := MovedAtoms(atoms, cut, start, end, len);
    if x <= start {
      FirstAtUnique(moved, x, FirstAt(atoms, x));
    } else if x <= start + len {
      FirstAtUnique(moved, x, cut);
    } else {
      FirstAtUnique(moved, x, FirstAt(atoms, x - start - len + end));
    }
  }

  // The caret a replacement's map sends `p` to.
  function MappedCaret(p: Caret, start: nat, end: nat, len: nat, seam: nat, bias: MapBias): Caret
    requires start <= end
  {
    var q := MapOverSeam(p.offset, p.ordinal, start, end, len, seam, bias);
    Caret(q.0, q.1)
  }

  // The commuting square at one caret.
  ghost predicate Commutes(atoms: seq<Placement>, start: nat, seam: nat, end: nat, len: nat, p: Caret, bias: MapBias)
    requires start <= end && ClearFrom(atoms, FirstAt(atoms, start) + seam, end)
  {
    var moved := MovedAtoms(atoms, FirstAt(atoms, start) + seam, start, end, len);
    var q := MappedCaret(p, start, end, len, seam, bias);
    && q.ordinal <= CountAt(moved, q.offset)
    && CaretIndex(moved, q)
       == SpliceIndex(CaretIndex(atoms, p), CaretIndex(atoms, Caret(start, seam)), end - start, len, bias)
  }

  lemma Conclude(atoms: seq<Placement>, start: nat, seam: nat, end: nat, len: nat, p: Caret, bias: MapBias,
                 q: Caret, x: nat)
    requires start <= end && ClearFrom(atoms, FirstAt(atoms, start) + seam, end)
    requires q == MappedCaret(p, start, end, len, seam, bias)
    requires x == SpliceIndex(CaretIndex(atoms, p), start + FirstAt(atoms, start) + seam, end - start, len, bias)
    requires var moved := MovedAtoms(atoms, FirstAt(atoms, start) + seam, start, end, len);
      q.ordinal <= CountAt(moved, q.offset) && q.offset + FirstAt(moved, q.offset) + q.ordinal == x
    ensures Commutes(atoms, start, seam, end, len, p, bias)
  {
    hide FirstAt, CountAt, MovedAtoms, MappedCaret, SpliceIndex, ClearFrom;
  }

  ghost predicate Accepted(atoms: seq<Placement>, start: nat, seam: nat, end: nat) {
    && SortedAtoms(atoms) && start <= end
    && seam <= CountAt(atoms, start) && ClearFrom(atoms, FirstAt(atoms, start) + seam, end)
  }

  lemma {:induction false} MovedCounts(atoms: seq<Placement>, start: nat, seam: nat, end: nat, len: nat, x: nat)
    requires Accepted(atoms, start, seam, end)
    ensures var cut := FirstAt(atoms, start) + seam;
      var moved := MovedAtoms(atoms, cut, start, end, len);
      && FirstAt(moved, x) == (if x <= start then FirstAt(atoms, x)
                               else if x <= start + len then cut
                               else FirstAt(atoms, x - start - len + end))
      && CountAt(moved, x) == FirstAt(moved, x + 1) - FirstAt(moved, x)
      && FirstAt(moved, x + 1) == (if x < start then FirstAt(atoms, x + 1)
                                   else if x < start + len then cut
                                   else FirstAt(atoms, x + 1 - start - len + end))
  {
    hide FirstAt, CountAt, MovedAtoms;
    var cut := FirstAt(atoms, start) + seam;
    CaretCuts(atoms, Caret(start, seam));
    MovedFirstAt(atoms, cut, start, end, len, x);
    MovedFirstAt(atoms, cut, start, end, len, x + 1);
    CountIsGap(MovedAtoms(atoms, cut, start, end, len), x);
  }

  lemma {:induction false} CommutesBefore(atoms: seq<Placement>, start: nat, seam: nat, end: nat, len: nat,
      p: Caret, bias: MapBias)
    requires Accepted(atoms, start, seam, end)
    requires p.ordinal <= CountAt(atoms, p.offset) && p.offset < start
    ensures Commutes(atoms, start, seam, end, len, p, bias)
  {
    hide FirstAt, CountAt, MovedAtoms, ClearFrom, SortedAtoms, Commutes;
    CountIsGap(atoms, p.offset);
    MovedCounts(atoms, start, seam, end, len, p.offset);
    FirstAtMonotone(atoms, p.offset, start);
    Conclude(atoms, start, seam, end, len, p, bias, p, CaretIndex(atoms, p));
  }

  // The edited gap read as the end of the replacement.
  lemma {:induction false} CommutesPastSeam(atoms: seq<Placement>, start: nat, seam: nat, end: nat, len: nat,
      p: Caret, bias: MapBias)
    requires Accepted(atoms, start, seam, end)
    requires p.ordinal <= CountAt(atoms, p.offset) && p.offset == start && p.ordinal == seam && len > 0 && bias == End
    ensures Commutes(atoms, start, seam, end, len, p, bias)
  {
    hide FirstAt, CountAt, MovedAtoms, ClearFrom, SortedAtoms, Commutes;
    CountIsGap(atoms, start);
    MovedCounts(atoms, start, seam, end, len, start + len);
    Conclude(atoms, start, seam, end, len, p, bias, Caret(start + len, 0), CaretIndex(atoms, p) + len);
  }

  // A later gap of the same boundary moves past the replacement.
  lemma {:induction false} CommutesAfterSeam(atoms: seq<Placement>, start: nat, seam: nat, end: nat, len: nat,
      p: Caret, bias: MapBias)
    requires Accepted(atoms, start, seam, end)
    requires p.ordinal <= CountAt(atoms, p.offset) && p.offset == start && p.ordinal > seam && len > 0
    ensures Commutes(atoms, start, seam, end, len, p, bias)
  {
    hide FirstAt, CountAt, MovedAtoms, ClearFrom, SortedAtoms, Commutes;
    ClearEnds(atoms, start, seam, end);
    CountIsGap(atoms, start);
    MovedCounts(atoms, start, seam, end, len, start + len);
    Conclude(atoms, start, seam, end, len, p, bias, Caret(start + len, p.ordinal - seam), CaretIndex(atoms, p) + len);
  }

  lemma {:induction false} CommutesAtSeam(atoms: seq<Placement>, start: nat, seam: nat, end: nat, len: nat,
      p: Caret, bias: MapBias)
    requires Accepted(atoms, start, seam, end)
    requires p.ordinal <= CountAt(atoms, p.offset) && p.offset == start
    ensures Commutes(atoms, start, seam, end, len, p, bias)
  {
    hide FirstAt, CountAt, MovedAtoms, ClearFrom, SortedAtoms, Commutes;
    if p.ordinal > seam && len > 0 {
      CommutesAfterSeam(atoms, start, seam, end, len, p, bias);
    } else if p.ordinal == seam && len > 0 && bias == End {
      CommutesPastSeam(atoms, start, seam, end, len, p, bias);
    } else {
      ClearEnds(atoms, start, seam, end);
      CountIsGap(atoms, start);
      MovedCounts(atoms, start, seam, end, len, start);
      Conclude(atoms, start, seam, end, len, p, bias, p, CaretIndex(atoms, p));
    }
  }

  lemma {:induction false} CommutesInside(atoms: seq<Placement>, start: nat, seam: nat, end: nat, len: nat,
      p: Caret, bias: MapBias)
    requires Accepted(atoms, start, seam, end)
    requires p.ordinal <= CountAt(atoms, p.offset) && start < p.offset < end
    ensures Commutes(atoms, start, seam, end, len, p, bias)
  {
    hide FirstAt, CountAt, MovedAtoms, ClearFrom, SortedAtoms, Commutes;
    ClearEnds(atoms, start, seam, end);
    ClearInside(atoms, start, seam, end, p.offset);
    var i := start + FirstAt(atoms, start) + seam;
    if bias == End && len > 0 {
      MovedCounts(atoms, start, seam, end, len, start + len);
      Conclude(atoms, start, seam, end, len, p, bias, Caret(start + len, 0), i + len);
    } else {
      MovedCounts(atoms, start, seam, end, len, start);
      Conclude(atoms, start, seam, end, len, p, bias, Caret(start, seam), i);
    }
  }

  lemma {:induction false} CommutesAtEnd(atoms: seq<Placement>, start: nat, seam: nat, end: nat, len: nat,
      p: Caret, bias: MapBias)
    requires Accepted(atoms, start, seam, end)
    requires p.ordinal <= CountAt(atoms, p.offset) && start < end == p.offset
    ensures Commutes(atoms, start, seam, end, len, p, bias)
  {
    hide FirstAt, CountAt, MovedAtoms, ClearFrom, SortedAtoms, Commutes;
    ClearEnds(atoms, start, seam, end);
    CountIsGap(atoms, end);
    MovedCounts(atoms, start, seam, end, len, start + len);
    var x := CaretIndex(atoms, p) - (end - start) + len;
    var q := if len > 0 then Caret(start + len, p.ordinal) else Caret(start, seam + p.ordinal);
    Conclude(atoms, start, seam, end, len, p, bias, q, x);
  }

  lemma {:induction false} CommutesAfter(atoms: seq<Placement>, start: nat, seam: nat, end: nat, len: nat,
      p: Caret, bias: MapBias)
    requires Accepted(atoms, start, seam, end)
    requires p.ordinal <= CountAt(atoms, p.offset) && end < p.offset
    ensures Commutes(atoms, start, seam, end, len, p, bias)
  {
    hide FirstAt, CountAt, MovedAtoms, ClearFrom, SortedAtoms, Commutes;
    ClearEnds(atoms, start, seam, end);
    CountIsGap(atoms, p.offset);
    FirstAtMonotone(atoms, end + 1, p.offset);
    var y := p.offset - (end - start) + len;
    MovedCounts(atoms, start, seam, end, len, y);
    assert y - start - len + end == p.offset && y + 1 - start - len + end == p.offset + 1;
    var x := CaretIndex(atoms, p) - (end - start) + len;
    Conclude(atoms, start, seam, end, len, p, bias, Caret(y, p.ordinal), x);
  }

  // The map of an accepted replacement sends carets to carets, by the index map.
  lemma {:induction false} MapIsSpliceIndex(atoms: seq<Placement>, start: nat, seam: nat, end: nat, len: nat,
                                            p: Caret, bias: MapBias)
    requires Accepted(atoms, start, seam, end)
    requires p.ordinal <= CountAt(atoms, p.offset)
    ensures Commutes(atoms, start, seam, end, len, p, bias)
  {
    hide Commutes, Accepted;
    if p.offset < start {
      CommutesBefore(atoms, start, seam, end, len, p, bias);
    } else if p.offset == start {
      CommutesAtSeam(atoms, start, seam, end, len, p, bias);
    } else if p.offset < end {
      CommutesInside(atoms, start, seam, end, len, p, bias);
    } else if p.offset == end {
      CommutesAtEnd(atoms, start, seam, end, len, p, bias);
    } else {
      CommutesAfter(atoms, start, seam, end, len, p, bias);
    }
  }

  // With the replaced region clear of atoms, the cut is the first atom at the end.
  lemma {:induction false} ClearEnds(atoms: seq<Placement>, start: nat, seam: nat, end: nat)
    requires Accepted(atoms, start, seam, end)
    ensures start < end ==> FirstAt(atoms, end) == FirstAt(atoms, start) + seam
    ensures start < end ==> CountAt(atoms, start) == seam
    ensures FirstAt(atoms, start) + seam <= FirstAt(atoms, end + 1)
  {
    hide FirstAt, CountAt;
    AtomBlocks(atoms, start);
    var cut := FirstAt(atoms, start) + seam;
    if start < end {
      FirstAtUnique(atoms, end, cut);
      FirstAtUnique(atoms, start + 1, cut);
      CountIsGap(atoms, start);
    }
    FirstAtMonotone(atoms, start, end + 1);
  }

  lemma {:induction false} ClearInside(atoms: seq<Placement>, start: nat, seam: nat, end: nat, x: nat)
    requires Accepted(atoms, start, seam, end) && start < x < end
    ensures FirstAt(atoms, x) == FirstAt(atoms, start) + seam && CountAt(atoms, x) == 0
  {
    hide FirstAt, CountAt;
    AtomBlocks(atoms, start);
    var cut := FirstAt(atoms, start) + seam;
    FirstAtUnique(atoms, x, cut);
    FirstAtUnique(atoms, x + 1, cut);
    CountIsGap(atoms, x);
  }

  // ----- the edit is a splice of the item sequence

  lemma {:induction false} AcceptedReplacement(c: InlineContent, start: nat, seam: nat, end: nat, text: seq<byte>,
                                               marks: MarkSet)
    requires WfContent(c) && InlineTextReplaced(c, start, seam, end, text, marks).Ok?
    ensures Accepted(c.atoms, start, seam, end)
    ensures RangeCheck(Chars(c.runs), start, end).Pass? && end <= |Chars(c.runs)|
  {
    hide Chars, CharsOk, CanonicalRuns;
    RangeInText(Chars(c.runs), start, end);
  }

  // Content around a stretch of text that holds no atom.
  lemma {:induction false} FlattenAround(cs: seq<Char>, atoms: seq<Placement>, at: nat, until: nat, cut: nat)
    requires Placed(cs, atoms) && at <= until <= |cs| && CutsAtoms(atoms, at, cut) && ClearFrom(atoms, cut, until)
    ensures Placed(cs[..at], atoms[..cut]) && Placed(cs[until..], Rebased(atoms[cut..], until))
    ensures Flatten(cs, atoms) == Flatten(cs[..at], atoms[..cut]) + Texts(cs[at..until])
                                  + Flatten(cs[until..], Rebased(atoms[cut..], until))
  {
    hide Flatten, Texts;
    PlacedHalves(cs, atoms, at, cut);
    FlattenCut(cs, atoms, at, cut);
    var tail := Rebased(atoms[cut..], at);
    FlattenFromText(cs[at..], tail, until - at);
    assert cs[at..][..until - at] == cs[at..until] && cs[at..][until - at..] == cs[until..];
    assert Rebased(tail, until - at) == Rebased(atoms[cut..], until);
  }

  lemma {:induction false} MovedTail(cs: seq<Char>, atoms: seq<Placement>, start: nat, seam: nat, end: nat,
                                     ins: seq<Char>)
    requires Placed(cs, atoms) && Accepted(atoms, start, seam, end) && end <= |cs|
    ensures var cut := FirstAt(atoms, start) + seam;
      var moved := MovedAtoms(atoms, cut, start, end, |ins|);
      && Placed(cs[..start] + ins + cs[end..], moved)
      && CutsAtoms(atoms, start, cut) && CutsAtoms(moved, start, cut) && ClearFrom(moved, cut, start + |ins|)
      && moved[..cut] == atoms[..cut]
      && Rebased(moved[cut..], start + |ins|) == Rebased(atoms[cut..], end)
  {
    hide FirstAt, CountAt;
    CaretCuts(atoms, Caret(start, seam));
    MovedSorted(atoms, start, seam, end, |ins|);
  }

  // Text before and after the replaced range, with the atoms on each side.
  lemma {:induction false} FlattenReplaced(cs: seq<Char>, atoms: seq<Placement>, start: nat, seam: nat, end: nat,
                                           ins: seq<Char>)
    requires Placed(cs, atoms) && Accepted(atoms, start, seam, end) && end <= |cs|
    ensures var at := CaretIndex(atoms, Caret(start, seam));
      var next := cs[..start] + ins + cs[end..];
      var moved := MovedAtoms(atoms, FirstAt(atoms, start) + seam, start, end, |ins|);
      && Placed(next, moved)
      && at + (end - start) <= |Flatten(cs, atoms)|
      && Flatten(cs, atoms)[at..at + (end - start)] == Texts(cs[start..end])
      && Flatten(next, moved) == Flatten(cs, atoms)[..at] + Texts(ins) + Flatten(cs, atoms)[at + (end - start)..]
  {
    hide Flatten, FirstAt, CountAt, Texts, MovedAtoms, Rebased, CutsAtoms, ClearFrom, Placed;
    var cut := FirstAt(atoms, start) + seam;
    var moved := MovedAtoms(atoms, cut, start, end, |ins|);
    var next := cs[..start] + ins + cs[end..];
    MovedTail(cs, atoms, start, seam, end, ins);
    FlattenAround(cs, atoms, start, end, cut);
    FlattenAround(next, moved, start, start + |ins|, cut);
    CutLength(atoms, start, cut);
    FlattenLength(cs[..start], atoms[..cut]);
    assert next[..start] == cs[..start] && next[start..start + |ins|] == ins && next[start + |ins|..] == cs[end..];
  }

  lemma CutLength(atoms: seq<Placement>, at: nat, cut: nat)
    requires CutsAtoms(atoms, at, cut)
    ensures cut <= |atoms|
  {}

  // Items that begin with `at` bytes of text before any atom.
  lemma {:induction false} FlattenFromText(cs: seq<Char>, atoms: seq<Placement>, at: nat)
    requires Placed(cs, atoms) && at <= |cs| && forall i :: 0 <= i < |atoms| ==> atoms[i].offset >= at
    ensures Placed(cs[at..], Rebased(atoms, at))
    ensures Flatten(cs, atoms) == Texts(cs[..at]) + Flatten(cs[at..], Rebased(atoms, at))
  {
    FlattenCut(cs, atoms, at, 0);
    assert atoms[0..] == atoms && atoms[..0] == [];
  }

  lemma CaretCutsAccepted(atoms: seq<Placement>, start: nat, seam: nat, end: nat)
    requires Accepted(atoms, start, seam, end)
    ensures CutsAtoms(atoms, start, FirstAt(atoms, start) + seam) && ClearFrom(atoms, FirstAt(atoms, start) + seam, end)
    ensures FirstAt(atoms, start) + seam <= |atoms|
    ensures forall i :: 0 <= i < FirstAt(atoms, start) + seam ==> atoms[i].offset <= start
  {
    hide FirstAt, CountAt;
    CaretCuts(atoms, Caret(start, seam));
  }

  // Every accepted replacement is one splice of the flattened items.
  lemma {:induction false} ReplacementIsSplice(c: InlineContent, start: nat, seam: nat, end: nat, text: seq<byte>,
                                               marks: MarkSet)
    requires WfContent(c) && ValidUtf8(text) && marks.Valid()
    requires InlineTextReplaced(c, start, seam, end, text, marks).Ok?
    ensures var r := InlineTextReplaced(c, start, seam, end, text, marks).value;
      var at := CaretIndex(c.atoms, Caret(start, seam));
      && WfContent(r) && Placed(Chars(c.runs), c.atoms) && Placed(Chars(r.runs), r.atoms)
      && at + (end - start) <= |FlatOf(c)|
      && FlatOf(r) == FlatOf(c)[..at] + Texts(Marked(text, marks)) + FlatOf(c)[at + (end - start)..]
  {
    hide Chars, CharsOk, CanonicalRuns, ValidUtf8, Flatten, Marked, Boundary, FirstAt, CountAt, MovedAtoms, Texts;
    hide RangeCheck, ClearFrom;
    hide CutsAtoms, Accepted, SortedAtoms, DistinctAtoms, AnchoredAtoms, Group;
    WfIsPlaced(c);
    AcceptedReplacement(c, start, seam, end, text, marks);
    CaretCutsAccepted(c.atoms, start, seam, end);
    MovedAtomsOk(c, FirstAt(c.atoms, start) + seam, start, end, text, marks);
    FlattenReplaced(Chars(c.runs), c.atoms, start, seam, end, Marked(text, marks));
  }

  // ----- edit and mapping commute

  // Mapping a valid caret over an accepted replacement gives a valid caret of the
  // result, at the index the splice sends it to.
  lemma {:induction false} EditAndMapCommute(c: InlineContent, start: nat, seam: nat, end: nat, text: seq<byte>,
                                             marks: MarkSet, p: Caret, bias: MapBias)
    requires WfContent(c) && ValidUtf8(text) && marks.Valid()
    requires InlineTextReplaced(c, start, seam, end, text, marks).Ok?
    requires ValidCaret(c, p)
    ensures start <= end
    ensures var r := InlineTextReplaced(c, start, seam, end, text, marks).value;
      var q := MappedCaret(p, start, end, |text|, seam, bias);
      && ValidCaret(r, q)
      && CaretIndex(r.atoms, q)
         == SpliceIndex(CaretIndex(c.atoms, p), CaretIndex(c.atoms, Caret(start, seam)), end - start, |text|, bias)
  {
    hide Chars, CharsOk, CanonicalRuns, ValidUtf8, FirstAt, CountAt, MovedAtoms, SpliceIndex, Boundary;
    AcceptedReplacement(c, start, seam, end, text, marks);
    MapIsSpliceIndex(c.atoms, start, seam, end, |text|, p, bias);
    MappedOnBoundary(Chars(c.runs), start, end, text, marks, p, seam, bias);
  }

  lemma {:induction false} MappedOnBoundary(cs: seq<Char>, start: nat, end: nat, text: seq<byte>, marks: MarkSet,
                                            p: Caret, seam: nat, bias: MapBias)
    requires CharsOk(cs) && ValidUtf8(text) && RangeCheck(cs, start, end).Pass? && Boundary(cs, p.offset)
    ensures start <= end <= |cs|
    ensures Boundary(SpliceChars(cs, start, end, text, marks), MappedCaret(p, start, end, |text|, seam, bias).offset)
  {
    hide CharsOk, ValidUtf8, SpliceChars, Boundary;
    RangeInText(cs, start, end);
    OffsetInText(cs, p.offset);
    SpliceBoundaries(cs, start, end, text, marks);
    var next := SpliceChars(cs, start, end, text, marks);
    assert Boundary(next, start);
    assert Boundary(next, end - end + start + |text|);
    if p.offset >= end {
      assert Boundary(next, p.offset - end + start + |text|);
    }
  }

  // Mapping never reorders carets.
  lemma {:induction false} MappingKeepsOrder(c: InlineContent, start: nat, seam: nat, end: nat, text: seq<byte>,
                                             marks: MarkSet, p: Caret, q: Caret, bias: MapBias)
    requires WfContent(c) && ValidUtf8(text) && marks.Valid()
    requires InlineTextReplaced(c, start, seam, end, text, marks).Ok?
    requires ValidCaret(c, p) && ValidCaret(c, q) && CaretBefore(p, q)
    ensures start <= end
    ensures !CaretBefore(MappedCaret(q, start, end, |text|, seam, bias), MappedCaret(p, start, end, |text|, seam, bias))
  {
    hide Chars, CharsOk, CanonicalRuns, ValidUtf8, FirstAt, CountAt, Boundary, MappedCaret, CaretIndex, MovedAtoms;
    hide WfContent;
    EditAndMapCommute(c, start, seam, end, text, marks, p, bias);
    EditAndMapCommute(c, start, seam, end, text, marks, q, bias);
    var r := InlineTextReplaced(c, start, seam, end, text, marks).value;
    AcceptedReplacement(c, start, seam, end, text, marks);
    MovedSorted(c.atoms, start, seam, end, |text|);
    CaretOrder(c.atoms, p, q);
    CaretOrder(r.atoms, MappedCaret(q, start, end, |text|, seam, bias), MappedCaret(p, start, end, |text|, seam, bias));
  }

  lemma {:induction false} MovedSorted(atoms: seq<Placement>, start: nat, seam: nat, end: nat, len: nat)
    requires Accepted(atoms, start, seam, end)
    ensures SortedAtoms(MovedAtoms(atoms, FirstAt(atoms, start) + seam, start, end, len))
  {
    hide FirstAt, CountAt;
    CaretCuts(atoms, Caret(start, seam));
    MovedFirstAt(atoms, FirstAt(atoms, start) + seam, start, end, len, 0);
  }

  // The gaps just before and just after placement `j`.
  function GapBefore(atoms: seq<Placement>, j: nat): Caret
    requires j < |atoms| && SortedAtoms(atoms)
  {
    GapIsCaret(atoms, j);
    Caret(atoms[j].offset, j - FirstAt(atoms, atoms[j].offset))
  }

  function GapAfter(atoms: seq<Placement>, j: nat): Caret
    requires j < |atoms| && SortedAtoms(atoms)
  {
    GapBefore(atoms, j).(ordinal := GapBefore(atoms, j).ordinal + 1)
  }

  lemma GapIsCaret(atoms: seq<Placement>, j: nat)
    requires j < |atoms| && SortedAtoms(atoms)
    ensures FirstAt(atoms, atoms[j].offset) <= j
    ensures j - FirstAt(atoms, atoms[j].offset) < CountAt(atoms, atoms[j].offset)
  {
    AtomBlocks(atoms, atoms[j].offset);
  }

  lemma {:induction false} GapsAreCarets(c: InlineContent, j: nat)
    requires WfContent(c) && j < |c.atoms|
    ensures SortedAtoms(c.atoms)
    ensures ValidCaret(c, GapBefore(c.atoms, j)) && CaretIndex(c.atoms, GapBefore(c.atoms, j)) == c.atoms[j].offset + j
    ensures ValidCaret(c, GapAfter(c.atoms, j))
      && CaretIndex(c.atoms, GapAfter(c.atoms, j)) == c.atoms[j].offset + j + 1
  {
    hide Chars, CharsOk, CanonicalRuns, FirstAt, CountAt, Boundary;
    GapIsCaret(c.atoms, j);
  }

  // Where the edit leaves atom `j`, as an index of the splice.
  lemma {:induction false} ReplacedAtoms(c: InlineContent, start: nat, seam: nat, end: nat, text: seq<byte>,
                                         marks: MarkSet, j: nat)
    requires WfContent(c) && ValidUtf8(text) && marks.Valid() && j < |c.atoms|
    requires InlineTextReplaced(c, start, seam, end, text, marks).Ok?
    ensures start <= end && SortedAtoms(c.atoms)
    ensures var r := InlineTextReplaced(c, start, seam, end, text, marks).value;
      && WfContent(r) && |r.atoms| == |c.atoms| && r.atoms[j].atom == c.atoms[j].atom
      && var at, x := CaretIndex(c.atoms, Caret(start, seam)), c.atoms[j].offset + j;
         && r.atoms[j].offset + j == SpliceIndex(x, at, end - start, |text|, End)
         && r.atoms[j].offset + j + 1 == SpliceIndex(x + 1, at, end - start, |text|, Start)
  {
    hide Chars, CharsOk, CanonicalRuns, ValidUtf8, FirstAt, CountAt, Boundary;
    AcceptedReplacement(c, start, seam, end, text, marks);
    CaretCutsAccepted(c.atoms, start, seam, end);
    MovedAtomsOk(c, FirstAt(c.atoms, start) + seam, start, end, text, marks);
  }

  // Every atom keeps its before-gap (End) and its after-gap (Start).
  lemma {:induction false} AtomsKeepTheirGaps(c: InlineContent, start: nat, seam: nat, end: nat, text: seq<byte>,
                                              marks: MarkSet, j: nat)
    requires WfContent(c) && ValidUtf8(text) && marks.Valid()
    requires InlineTextReplaced(c, start, seam, end, text, marks).Ok?
    requires j < |c.atoms|
    ensures start <= end
    ensures var r := InlineTextReplaced(c, start, seam, end, text, marks).value;
      && WfContent(r) && |r.atoms| == |c.atoms| && r.atoms[j].atom == c.atoms[j].atom
      && MappedCaret(GapBefore(c.atoms, j), start, end, |text|, seam, End) == GapBefore(r.atoms, j)
      && MappedCaret(GapAfter(c.atoms, j), start, end, |text|, seam, Start) == GapAfter(r.atoms, j)
  {
    hide Chars, CharsOk, CanonicalRuns, ValidUtf8, FirstAt, CountAt, Boundary, MappedCaret, MovedAtoms;
    hide InlineTextReplaced, WfContent, GapBefore, GapAfter, CaretIndex;
    var r := InlineTextReplaced(c, start, seam, end, text, marks).value;
    ReplacedAtoms(c, start, seam, end, text, marks, j);
    GapsAreCarets(c, j);
    GapsAreCarets(r, j);
    EditAndMapCommute(c, start, seam, end, text, marks, GapBefore(c.atoms, j), End);
    EditAndMapCommute(c, start, seam, end, text, marks, GapAfter(c.atoms, j), Start);
    CaretOrder(r.atoms, MappedCaret(GapBefore(c.atoms, j), start, end, |text|, seam, End), GapBefore(r.atoms, j));
    CaretOrder(r.atoms, MappedCaret(GapAfter(c.atoms, j), start, end, |text|, seam, Start), GapAfter(r.atoms, j));
  }
}
