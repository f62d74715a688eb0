// Cutting inline content at a gap and joining two contents
// (crates/xiaomu-core/src/transaction/apply/structure.rs).
module Structure {
  import opened Wrappers
  import opened Numbers
  import opened Text
  import opened Marks
  import opened Content
  import opened InlineEdit
  import opened Flat
  import opened InlineLaws
  import opened Mapping

  // Spec of `split_content`: head and tail at an exact gap.
  function SplitAt(c: InlineContent, p: Caret): Result<(InlineContent, InlineContent)> {
    var cs := Chars(c.runs);
    :- OffsetCheck(cs, p.offset);
    var cut := CaretCut(c.atoms, p);
    :- Need(p.ordinal <= CountAt(c.atoms, p.offset), InvalidSelection);
    // On ordered placements this holds already.
    :- Need(cut <= |c.atoms| && forall i :: cut <= i < |c.atoms| ==> c.atoms[i].offset >= p.offset, InvalidSelection);
    Ok((InlineContent(Group(cs[..p.offset]), c.atoms[..cut]),
        InlineContent(Group(cs[p.offset..]), Rebased(c.atoms[cut..], p.offset))))
  }

  function Shifted(atoms: seq<Placement>, len: nat): (r: seq<Placement>)
    ensures |r| == |atoms|
    ensures forall i :: 0 <= i < |r| ==> r[i] == Placement(atoms[i].atom, len + atoms[i].offset)
  {
    seq(|atoms|, i requires 0 <= i < |atoms| => Placement(atoms[i].atom, len + atoms[i].offset))
  }

  // Spec of the content part of `apply_join_nodes`.
  function Joined(a: InlineContent, b: InlineContent): Result<InlineContent> {
    var atoms := a.atoms + Shifted(b.atoms, |Chars(a.runs)|);
    :- Need(DistinctAtoms(atoms), DuplicateInlineAtomReference);
    Ok(InlineContent(Group(Chars(a.runs) + Chars(b.runs)), atoms))
  }

  // The gap at which a join's second content begins.
  function JoinGap(a: InlineContent): Caret {
    Caret(|Chars(a.runs)|, CountAt(a.atoms, |Chars(a.runs)|))
  }

  // ----- the loops

  lemma {:induction false} PrefixOk(cs: seq<Char>, at: nat)
    requires CharsOk(cs) && Boundary(cs, at)
    ensures at <= |cs| && CharsOk(cs[..at]) && CharsOk(cs[at..])
    ensures forall x :: 0 <= x <= at ==> (Boundary(cs[..at], x) <==> Boundary(cs, x))
    ensures forall x :: at <= x <= |cs| ==> (Boundary(cs[at..], x - at) <==> Boundary(cs, x))
  {
    hide ValidUtf8;
    CutValid(Bytes(cs), at);
    assert Bytes(cs[..at]) == Bytes(cs)[..at];
    assert Bytes(cs[at..]) == Bytes(cs)[at..];
    var tail := cs[at..];
    forall i | 0 < i < |tail| && tail[i - 1].marks != tail[i].marks
      ensures !IsContinuation(tail[i].b)
    {
      assert tail[i] == cs[at + i] && tail[i - 1] == cs[at + i - 1];
    }
    forall x | at <= x <= |cs|
      ensures Boundary(tail, x - at) <==> Boundary(cs, x)
    {
      if x < |cs| {
        assert tail[x - at] == cs[x];
      }
    }
  }

  lemma {:induction false} HalvesWf(c: InlineContent, p: Caret)
    requires WfContent(c) && SplitAt(c, p).Ok?
    ensures ValidCaret(c, p)
    ensures WfContent(SplitAt(c, p).value.0) && WfContent(SplitAt(c, p).value.1)
    ensures CutsAtoms(c.atoms, p.offset, CaretCut(c.atoms, p))
  {
    hide Chars, CharsOk, CanonicalRuns, ValidUtf8, FirstAt, CountAt, Boundary;
    var cs, cut := Chars(c.runs), CaretCut(c.atoms, p);
    CaretCuts(c.atoms, p);
    PrefixOk(cs, p.offset);
    var tail := Rebased(c.atoms[cut..], p.offset);
    forall i | 0 <= i < |c.atoms|
      ensures i < cut ==> Boundary(cs[..p.offset], c.atoms[i].offset)
      ensures i >= cut ==> Boundary(cs[p.offset..], c.atoms[i].offset - p.offset)
    {
      assert Boundary(cs, c.atoms[i].offset);
      OffsetInText(cs, c.atoms[i].offset);
    }
    assert AnchoredAtoms(cs[p.offset..], tail);
  }

  lemma {:induction false} PrefixOfRuns(runs: seq<TextRun>, k: nat, split: nat)
    requires CanonicalRuns(runs) && CharsOk(Chars(runs)) && k < |runs| && Boundary(Chars(runs), split)
    ensures var lo := |Chars(runs[..k])|; var cut := if split <= lo then 0 else Min(split - lo, |runs[k].text|);
      IsBoundary(runs[k].text, cut)
  {
    hide Chars, CharsOk, CanonicalRuns, Boundary;
    var lo := |Chars(runs[..k])|;
    if lo <= split <= lo + |runs[k].text| {
      BoundaryWithinRun(runs, k, split);
    }
  }

  // One step of the cut: both halves of the text so far.
  lemma {:induction false} CutStep(cs: seq<Char>, split: nat, lo: nat, here: seq<Char>)
    requires split <= |cs| && lo + |here| <= |cs| && here == cs[lo..lo + |here|]
    ensures var cut := if split <= lo then 0 else Min(split - lo, |here|);
      var hi := lo + |here|;
      && cs[..Min(split, lo)] + here[..cut] == cs[..Min(split, hi)]
      && cs[Min(split, lo)..lo] + here[cut..] == cs[Min(split, hi)..hi]
  {
    var hi := lo + |here|;
    if split <= lo {
      assert cs[split..lo] + cs[lo..hi] == cs[split..hi];
    } else if split < hi {
      assert here[..split - lo] == cs[lo..split];
      assert here[split - lo..] == cs[split..hi];
      assert cs[lo..lo] == [];
    } else {
      assert cs[..lo] + here == cs[..hi];
    }
  }

  // One run's two sides, when there is text on them.
  method CutRun(headRuns: seq<TextRun>, tailRuns: seq<TextRun>, run: TextRun, cut: nat)
      returns (heads: seq<TextRun>, tails: seq<TextRun>)
    requires IsBoundary(run.text, 0) && IsBoundary(run.text, |run.text|) && IsBoundary(run.text, cut)
    requires forall k :: 0 <= k < |headRuns| ==> headRuns[k].text != []
    requires forall k :: 0 <= k < |tailRuns| ==> tailRuns[k].text != []
    ensures Chars(heads) == Chars(headRuns) + Marked(run.text, run.marks)[..cut]
    ensures Chars(tails) == Chars(tailRuns) + Marked(run.text, run.marks)[cut..]
    ensures forall k :: 0 <= k < |heads| ==> heads[k].text != []
    ensures forall k :: 0 <= k < |tails| ==> tails[k].text != []
  {
    hide Chars, Marked, IsContinuation;
    heads, tails := headRuns, tailRuns;
    MarkedSlice(run.text, run.marks, 0, cut);
    MarkedSlice(run.text, run.marks, cut, |run.text|);
    if cut > 0 {
      heads := PushPiece(heads, Slice(run.text, 0, cut), run.marks);
    }
    if cut < |run.text| {
      tails := PushPiece(tails, Slice(run.text, cut, |run.text|), run.marks);
    }
  }

  method CutRuns(runs: seq<TextRun>, split: nat) returns (headRuns: seq<TextRun>, tailRuns: seq<TextRun>)
    requires CanonicalRuns(runs) && CharsOk(Chars(runs)) && Boundary(Chars(runs), split)
    ensures split <= |Chars(runs)|
    ensures Chars(headRuns) == Chars(runs)[..split] && Chars(tailRuns) == Chars(runs)[split..]
    ensures forall k :: 0 <= k < |headRuns| ==> headRuns[k].text != []
    ensures forall k :: 0 <= k < |tailRuns| ==> tailRuns[k].text != []
  {
    hide Chars, CharsOk, CanonicalRuns, Boundary, Marked, IsBoundary, Min;
    ghost var cs := Chars(runs);
    OffsetInText(cs, split);
    MinEnds(split, |cs|);
    NoRuns();
    assert runs[..0] == [];
    headRuns, tailRuns := [], [];
    var cursor := 0;
    for i := 0 to |runs|
      invariant cursor == |Chars(runs[..i])| <= |cs|
      invariant Chars(headRuns) == cs[..Min(split, cursor)]
      invariant Chars(tailRuns) == cs[Min(split, cursor)..cursor]
      invariant forall k :: 0 <= k < |headRuns| ==> headRuns[k].text != []
      invariant forall k :: 0 <= k < |tailRuns| ==> tailRuns[k].text != []
    {
      var run := runs[i];
      RunIsSlice(runs, i);
      PrefixOfRuns(runs, i, split);
      TextEnds(run.text);
      CutStep(cs, split, cursor, Marked(run.text, run.marks));
      var cut := if split <= cursor then 0 else Min(split - cursor, |run.text|);
      headRuns, tailRuns := CutRun(headRuns, tailRuns, run, cut);
      cursor := cursor + |run.text|;
    }
    assert runs[..|runs|] == runs;
  }

  lemma MinEnds(split: nat, len: nat)
    requires split <= len
    ensures Min(split, 0) == 0 && Min(split, len) == split
    ensures forall x :: 0 <= x ==> 0 <= Min(split, x) <= x
  {}

  lemma TextEnds(text: seq<byte>)
    ensures IsBoundary(text, 0) && IsBoundary(text, |text|)
  {}

  method SplitContent(c: InlineContent, p: Caret) returns (r: Result<(InlineContent, InlineContent)>)
    requires WfContent(c)
    ensures r == SplitAt(c, p)
  {
    hide Chars, CharsOk, CanonicalRuns, Boundary, Marked, FirstAt, CountAt, Group;
    var check := ValidateOffset(c.runs, p.offset);
    if check.Fail? {
      return Err(check.error);
    }
    var count := AtomCountAt(c.atoms, p.offset);
    if p.ordinal > count {
      return Err(InvalidSelection);
    }
    CaretCuts(c.atoms, p);
    HalvesWf(c, p);
    PrefixOk(Chars(c.runs), p.offset);
    var headRuns, tailRuns := CutRuns(c.runs, p.offset);
    var cut := FirstAt(c.atoms, p.offset) + p.ordinal;
    var head := Rebuild(headRuns, c.atoms[..cut]);
    var tail := Rebuild(tailRuns, Rebased(c.atoms[cut..], p.offset));
    return Ok((head.value, tail.value));
  }

  lemma {:induction false} JoinedWf(a: InlineContent, b: InlineContent)
    requires WfContent(a) && WfContent(b)
    ensures var cs := Chars(a.runs) + Chars(b.runs); var atoms := a.atoms + Shifted(b.atoms, |Chars(a.runs)|);
      && CharsOk(cs) && SortedAtoms(atoms) && AnchoredAtoms(cs, atoms)
    ensures Joined(a, b).Ok? ==> WfContent(Joined(a, b).value)
  {
    hide Chars, CanonicalRuns, CharsOk, Boundary;
    var x, y := Chars(a.runs), Chars(b.runs);
    var cs := x + y;
    ConcatOk(x, y);
    JoinedBoundaries(x, y);
    AtomsWithinText(a);
    var atoms := a.atoms + Shifted(b.atoms, |x|);
    forall i | 0 <= i < |atoms|
      ensures Boundary(cs, atoms[i].offset)
    {
      if i < |a.atoms| {
        assert Boundary(x, a.atoms[i].offset);
      } else {
        assert Boundary(y, b.atoms[i - |a.atoms|].offset);
      }
    }
  }

  lemma {:induction false} JoinedBoundaries(x: seq<Char>, y: seq<Char>)
    requires CharsOk(x) && CharsOk(y)
    ensures forall o: nat :: Boundary(x, o) ==> Boundary(x + y, o)
    ensures forall o: nat :: Boundary(y, o) ==> Boundary(x + y, |x| + o)
  {
    hide ValidUtf8;
    if y != [] {
      FirstIsLead(Bytes(y));
    }
  }

  method JoinContents(a: InlineContent, b: InlineContent) returns (r: Result<InlineContent>)
    requires WfContent(a) && WfContent(b)
    ensures r == Joined(a, b)
    ensures r.Ok? ==> WfContent(r.value)
  {
    hide Chars, CharsOk, Boundary, Marked, Group;
    JoinedWf(a, b);
    var firstLen := LenBytes(a.runs);
    CharsAppend(a.runs, b.runs);
    var atoms := a.atoms + Shifted(b.atoms, firstLen);
    r := Rebuild(a.runs + b.runs, atoms);
    if r.Err? {
      r := Err(DuplicateInlineAtomReference);
    }
  }

  // ----- split and join undo each other

  lemma {:induction false} JoinUndoesSplit(c: InlineContent, p: Caret)
    requires WfContent(c) && SplitAt(c, p).Ok?
    ensures Joined(SplitAt(c, p).value.0, SplitAt(c, p).value.1) == Ok(c)
  {
    hide Chars, CharsOk, Boundary, FirstAt, CountAt, Group;
    HalvesWf(c, p);
    var (head, tail) := SplitAt(c, p).value;
    OffsetInText(Chars(c.runs), p.offset);
    assert Chars(head.runs) + Chars(tail.runs) == Chars(c.runs);
    AtomsRejoin(c.atoms, CaretCut(c.atoms, p), p.offset);
    CanonicalRunsUnique(c.runs, Group(Chars(c.runs)));
  }

  lemma AtomsRejoin(atoms: seq<Placement>, cut: nat, at: nat)
    requires CutsAtoms(atoms, at, cut)
    ensures atoms[..cut] + Shifted(Rebased(atoms[cut..], at), at) == atoms
  {}

  // Placements counted across a join: before, at and after the seam.
  lemma {:induction false} JoinedFirsts(a: seq<Placement>, b: seq<Placement>, len: nat, x: nat)
    requires SortedAtoms(a) && SortedAtoms(b) && forall i :: 0 <= i < |a| ==> a[i].offset <= len
    ensures SortedAtoms(a + Shifted(b, len))
    ensures x <= len ==> FirstAt(a + Shifted(b, len), x) == FirstAt(a, x)
    ensures x > len ==> FirstAt(a + Shifted(b, len), x) == |a| + FirstAt(b, x - len)
  {
    hide FirstAt;
    var atoms := a + Shifted(b, len);
    if x <= len {
      FirstAtUnique(atoms, x, FirstAt(a, x));
    } else {
      FirstAtUnique(atoms, x, |a| + FirstAt(b, x - len));
    }
  }

  lemma {:induction false} JoinedBefore(a: seq<Placement>, b: seq<Placement>, len: nat, x: nat)
    requires SortedAtoms(a) && SortedAtoms(b) && (forall i :: 0 <= i < |a| ==> a[i].offset <= len) && x < len
    ensures FirstAt(a + Shifted(b, len), x) == FirstAt(a, x)
    ensures CountAt(a + Shifted(b, len), x) == CountAt(a, x)
  {
    hide FirstAt, CountAt, Shifted;
    JoinedFirsts(a, b, len, x);
    JoinedFirsts(a, b, len, x + 1);
    CountIsGap(a + Shifted(b, len), x);
    CountIsGap(a, x);
  }

  lemma {:induction false} JoinedAtSeam(a: seq<Placement>, b: seq<Placement>, len: nat)
    requires SortedAtoms(a) && SortedAtoms(b) && forall i :: 0 <= i < |a| ==> a[i].offset <= len
    ensures FirstAt(a + Shifted(b, len), len) == FirstAt(a, len)
    ensures FirstAt(a, len) + CountAt(a, len) == |a|
    ensures FirstAt(b, 0) == 0
    ensures CountAt(a + Shifted(b, len), len) == CountAt(a, len) + CountAt(b, 0)
  {
    hide FirstAt, CountAt, Shifted;
    JoinedFirsts(a, b, len, len);
    JoinedFirsts(a, b, len, len + 1);
    CountIsGap(a + Shifted(b, len), len);
    CountIsGap(a, len);
    CountIsGap(b, 0);
    FirstAtUnique(a, len + 1, |a|);
    FirstAtUnique(b, 0, 0);
  }

  lemma {:induction false} JoinedAfter(a: seq<Placement>, b: seq<Placement>, len: nat, x: nat)
    requires SortedAtoms(a) && SortedAtoms(b) && (forall i :: 0 <= i < |a| ==> a[i].offset <= len) && x > 0
    ensures FirstAt(a + Shifted(b, len), len + x) == |a| + FirstAt(b, x)
    ensures CountAt(a + Shifted(b, len), len + x) == CountAt(b, x)
  {
    hide FirstAt, CountAt, Shifted;
    JoinedFirsts(a, b, len, len + x);
    JoinedFirsts(a, b, len, len + x + 1);
    CountIsGap(a + Shifted(b, len), len + x);
    CountIsGap(b, x);
  }

  lemma {:induction false} AtomsWithinText(c: InlineContent)
    requires WfContent(c)
    ensures forall i :: 0 <= i < |c.atoms| ==> c.atoms[i].offset <= |Chars(c.runs)|
  {
    hide Chars, CharsOk;
  }

  lemma {:induction false} SplitUndoesJoin(a: InlineContent, b: InlineContent)
    requires WfContent(a) && WfContent(b) && Joined(a, b).Ok?
    ensures SplitAt(Joined(a, b).value, JoinGap(a)) == Ok((a, b))
  {
    hide Chars, CharsOk, FirstAt, CountAt, Group;
    var c := Joined(a, b).value;
    var len := |Chars(a.runs)|;
    JoinedWf(a, b);
    AtomsWithinText(a);
    JoinedAtSeam(a.atoms, b.atoms, len);
    JoinGapIsBoundary(Chars(a.runs), Chars(b.runs));
    var cs := Chars(a.runs) + Chars(b.runs);
    assert cs[..len] == Chars(a.runs) && cs[len..] == Chars(b.runs);
    assert CaretCut(c.atoms, JoinGap(a)) == |a.atoms|;
    assert c.atoms[..|a.atoms|] == a.atoms;
    assert Rebased(c.atoms[|a.atoms|..], len) == b.atoms;
    CanonicalRunsUnique(a.runs, Group(Chars(a.runs)));
    CanonicalRunsUnique(b.runs, Group(Chars(b.runs)));
  }

  lemma JoinGapIsBoundary(x: seq<Char>, y: seq<Char>)
    requires CharsOk(y)
    ensures Boundary(x + y, |x|)
  {
    hide ValidUtf8;
    if y != [] {
      FirstIsLead(Bytes(y));
    }
  }

  // A split cuts the items at the caret's index.
  lemma {:induction false} SplitIsCut(c: InlineContent, p: Caret)
    requires WfContent(c) && SplitAt(c, p).Ok?
    ensures var (head, tail) := SplitAt(c, p).value;
      && Placed(Chars(c.runs), c.atoms) && Placed(Chars(head.runs), head.atoms) && Placed(Chars(tail.runs), tail.atoms)
      && CaretIndex(c.atoms, p) <= |FlatOf(c)|
      && FlatOf(head) == FlatOf(c)[..CaretIndex(c.atoms, p)]
      && FlatOf(tail) == FlatOf(c)[CaretIndex(c.atoms, p)..]
  {
    hide Chars, CharsOk, Boundary, FirstAt, CountAt, Group, Flatten;
    WfIsPlaced(c);
    HalvesWf(c, p);
    OffsetInText(Chars(c.runs), p.offset);
    CaretSplitsItems(Chars(c.runs), c.atoms, p);
  }

  // ----- split and join maps are index maps

  // A split sends each caret to the half holding it, at its index there.
  lemma {:induction false} SplitMapIsIndex(c: InlineContent, gap: InlinePoint, inserted: NodeId, parent: NodeId,
                                           index: nat, point: InlinePoint, bias: MapBias)
    requires WfContent(c) && SplitAt(c, CaretOf(gap)).Ok? && gap.node != inserted
    requires point.node == gap.node && ValidCaret(c, CaretOf(point))
    ensures var (head, tail) := SplitAt(c, CaretOf(gap)).value;
      var x, at := CaretIndex(c.atoms, CaretOf(point)), CaretIndex(c.atoms, CaretOf(gap));
      var q := MapInlinePoint(InlineNodeSplit(parent, index, gap, inserted), point, bias);
      && q.Mapped? && q.position.affinity == point.affinity
      && (if x < at || (x == at && bias == Start)
          then q.position == point && ValidCaret(head, CaretOf(q.position))
               && CaretIndex(head.atoms, CaretOf(q.position)) == x
          else q.position.node == inserted && ValidCaret(tail, CaretOf(q.position))
               && CaretIndex(tail.atoms, CaretOf(q.position)) == x - at)
  {
    hide Chars, CharsOk, Boundary, FirstAt, CountAt, Group;
    var p, q := CaretOf(gap), CaretOf(point);
    HalvesWf(c, p);
    OffsetInText(Chars(c.runs), p.offset);
    OffsetInText(Chars(c.runs), q.offset);
    PrefixOk(Chars(c.runs), p.offset);
    CaretOrder(c.atoms, q, p);
    CaretOrder(c.atoms, p, q);
    if q.offset < p.offset {
      HalfBefore(c.atoms, p, q.offset);
    } else if q.offset == p.offset {
      HalfAtGap(c.atoms, p);
    } else {
      HalfAfter(c.atoms, p, q.offset);
    }
  }

  lemma {:induction false} HalfBefore(atoms: seq<Placement>, p: Caret, x: nat)
    requires SortedAtoms(atoms) && p.ordinal <= CountAt(atoms, p.offset) && x < p.offset
    ensures CaretCut(atoms, p) <= |atoms|
    ensures FirstAt(atoms[..CaretCut(atoms, p)], x) == FirstAt(atoms, x)
    ensures CountAt(atoms[..CaretCut(atoms, p)], x) == CountAt(atoms, x)
  {
    hide FirstAt, CountAt;
    AtomBlocks(atoms, p.offset);
    var head := atoms[..CaretCut(atoms, p)];
    FirstAtMonotone(atoms, x, p.offset);
    CountIsGap(atoms, x);
    FirstAtUnique(head, x, FirstAt(atoms, x));
    FirstAtUnique(head, x + 1, FirstAt(atoms, x + 1));
    CountIsGap(head, x);
  }

  lemma {:induction false} HalfAtGap(atoms: seq<Placement>, p: Caret)
    requires SortedAtoms(atoms) && p.ordinal <= CountAt(atoms, p.offset)
    ensures CutsAtoms(atoms, p.offset, CaretCut(atoms, p))
    ensures var cut := CaretCut(atoms, p); var tail := Rebased(atoms[cut..], p.offset);
      && FirstAt(atoms[..cut], p.offset) == FirstAt(atoms, p.offset) && CountAt(atoms[..cut], p.offset) == p.ordinal
      && FirstAt(tail, 0) == 0 && CountAt(tail, 0) == CountAt(atoms, p.offset) - p.ordinal
  {
    hide FirstAt, CountAt;
    CaretCuts(atoms, p);
    AtomBlocks(atoms, p.offset);
    var cut := CaretCut(atoms, p);
    var head, tail := atoms[..cut], Rebased(atoms[cut..], p.offset);
    FirstAtUnique(head, p.offset, FirstAt(atoms, p.offset));
    FirstAtUnique(head, p.offset + 1, cut);
    CountIsGap(head, p.offset);
    FirstAtUnique(tail, 0, 0);
    FirstAtUnique(tail, 1, FirstAt(atoms, p.offset) + CountAt(atoms, p.offset) - cut);
    CountIsGap(tail, 0);
  }

  lemma {:induction false} TailFirst(atoms: seq<Placement>, p: Caret, x: nat)
    requires SortedAtoms(atoms) && p.ordinal <= CountAt(atoms, p.offset) && x > p.offset
    ensures CutsAtoms(atoms, p.offset, CaretCut(atoms, p))
    ensures SortedAtoms(Rebased(atoms[CaretCut(atoms, p)..], p.offset))
    ensures FirstAt(Rebased(atoms[CaretCut(atoms, p)..], p.offset), x - p.offset)
      == FirstAt(atoms, x) - CaretCut(atoms, p)
  {
    hide FirstAt, CountAt;
    CaretCuts(atoms, p);
    FirstAtMonotone(atoms, p.offset, x);
    var cut := CaretCut(atoms, p);
    FirstAtUnique(Rebased(atoms[cut..], p.offset), x - p.offset, FirstAt(atoms, x) - cut);
  }

  lemma {:induction false} HalfAfter(atoms: seq<Placement>, p: Caret, x: nat)
    requires SortedAtoms(atoms) && p.ordinal <= CountAt(atoms, p.offset) && x > p.offset
    ensures CutsAtoms(atoms, p.offset, CaretCut(atoms, p))
    ensures var cut := CaretCut(atoms, p); var tail := Rebased(atoms[cut..], p.offset);
      && FirstAt(tail, x - p.offset) == FirstAt(atoms, x) - cut && CountAt(tail, x - p.offset) == CountAt(atoms, x)
  {
    hide FirstAt, CountAt, Rebased, SortedAtoms;
    TailFirst(atoms, p, x);
    TailFirst(atoms, p, x + 1);
    CountIsGap(atoms, x);
    CountIsGap(Rebased(atoms[CaretCut(atoms, p)..], p.offset), x - p.offset);
  }

  function JoinMap(parent: NodeId, index: nat, first: NodeId, second: NodeId, a: InlineContent): StepMap {
    InlineNodeJoined(parent, index, first, second, JoinGap(a).offset, JoinGap(a).ordinal)
  }

  // A join appends the second content's carets after the first's items.
  lemma {:induction false} JoinMapIsIndex(a: InlineContent, b: InlineContent, parent: NodeId, index: nat,
                                          first: NodeId, second: NodeId, point: InlinePoint, bias: MapBias)
    requires WfContent(a) && WfContent(b) && Joined(a, b).Ok? && first != second
    requires point.node == first ==> ValidCaret(a, CaretOf(point))
    requires point.node == second ==> ValidCaret(b, CaretOf(point))
    requires point.node == first || point.node == second
    ensures var c := Joined(a, b).value;
      var q := MapInlinePoint(JoinMap(parent, index, first, second, a), point, bias);
      && q.Mapped? && q.position.node == first && q.position.affinity == point.affinity
      && ValidCaret(c, CaretOf(q.position))
      && CaretIndex(c.atoms, CaretOf(q.position)) ==
         if point.node == first then CaretIndex(a.atoms, CaretOf(point))
         else |Chars(a.runs)| + |a.atoms| + CaretIndex(b.atoms, CaretOf(point))
  {
    hide Chars, WfContent, ValidCaret, CaretIndex, CountAt, Joined;
    if point.node == first {
      JoinKeepsFirst(a, b, CaretOf(point));
    } else {
      JoinShiftsSecond(a, b, CaretOf(point));
    }
  }

  lemma {:induction false} JoinKeepsFirst(a: InlineContent, b: InlineContent, p: Caret)
    requires WfContent(a) && WfContent(b) && Joined(a, b).Ok? && ValidCaret(a, p)
    ensures ValidCaret(Joined(a, b).value, p)
    ensures CaretIndex(Joined(a, b).value.atoms, p) == CaretIndex(a.atoms, p)
  {
    hide Chars, CharsOk, Boundary, FirstAt, CountAt, Group, CanonicalRuns;
    var len := |Chars(a.runs)|;
    JoinedBoundaries(Chars(a.runs), Chars(b.runs));
    AtomsWithinText(a);
    OffsetInText(Chars(a.runs), p.offset);
    if p.offset < len {
      JoinedBefore(a.atoms, b.atoms, len, p.offset);
    } else {
      JoinedAtSeam(a.atoms, b.atoms, len);
    }
  }

  lemma {:induction false} JoinShiftsSecond(a: InlineContent, b: InlineContent, p: Caret)
    requires WfContent(a) && WfContent(b) && Joined(a, b).Ok? && ValidCaret(b, p)
    ensures var len := |Chars(a.runs)|;
      var q := Caret(len + p.offset, p.ordinal + if p.offset == 0 then CountAt(a.atoms, len) else 0);
      && ValidCaret(Joined(a, b).value, q)
      && CaretIndex(Joined(a, b).value.atoms, q) == len + |a.atoms| + CaretIndex(b.atoms, p)
  {
    hide Chars, CharsOk, Boundary, FirstAt, CountAt, Group, CanonicalRuns;
    var len := |Chars(a.runs)|;
    JoinedBoundaries(Chars(a.runs), Chars(b.runs));
    AtomsWithinText(a);
    if p.offset == 0 {
      JoinedAtSeam(a.atoms, b.atoms, len);
    } else {
      JoinedAfter(a.atoms, b.atoms, len, p.offset);
    }
  }

  // Splitting and joining back returns every caret, for both biases.
  lemma {:induction false} SplitThenJoinIsIdentity(c: InlineContent, gap: InlinePoint, inserted: NodeId,
                                                   parent: NodeId, index: nat,
                                                   point: InlinePoint, bias: MapBias, bias': MapBias)
    requires WfContent(c) && SplitAt(c, CaretOf(gap)).Ok? && gap.node != inserted
    requires point.node == gap.node && ValidCaret(c, CaretOf(point))
    ensures var (head, tail) := SplitAt(c, CaretOf(gap)).value;
      var split := MapInlinePoint(InlineNodeSplit(parent, index, gap, inserted), point, bias);
      && split.Mapped?
      && MapInlinePoint(JoinMap(parent, index, gap.node, inserted, head), split.position, bias') == Mapped(point)
  {
    hide Chars, CharsOk, Boundary, FirstAt, CountAt, Group;
    HalvesWf(c, CaretOf(gap));
    OffsetInText(Chars(c.runs), gap.offset);
    HalfAtGap(c.atoms, CaretOf(gap));
  }

  // ----- one atom in, one atom out

  function AtomAttached(c: InlineContent, p: Caret, atom: NodeId): Result<InlineContent> {
    var check := OffsetCheck(Chars(c.runs), p.offset);
    if check.Fail? then Err(check.error)
    else
      :- Need(p.ordinal <= CountAt(c.atoms, p.offset), InvalidSelection);
      var cut := CaretCut(c.atoms, p);
      // On ordered placements this holds already.
      :- Need(cut <= |c.atoms|, InvalidSelection);
      var atoms := c.atoms[..cut] + [Placement(atom, p.offset)] + c.atoms[cut..];
      :- Need(DistinctAtoms(atoms), DuplicateInlineAtomReference);
      Ok(InlineContent(c.runs, atoms))
  }

  function AtomDetached(c: InlineContent, j: nat): InlineContent
    requires j < |c.atoms|
  {
    InlineContent(c.runs, c.atoms[..j] + c.atoms[j + 1..])
  }

  lemma {:induction false} AttachedWf(c: InlineContent, p: Caret, atom: NodeId)
    requires WfContent(c) && AtomAttached(c, p, atom).Ok?
    ensures WfContent(AtomAttached(c, p, atom).value) && ValidCaret(c, p)
    ensures CutsAtoms(c.atoms, p.offset, CaretCut(c.atoms, p))
  {
    hide Chars, CharsOk, Boundary, FirstAt, CountAt;
    CaretCuts(c.atoms, p);
  }

  lemma {:induction false} DetachedWf(c: InlineContent, j: nat)
    requires WfContent(c) && j < |c.atoms|
    ensures WfContent(AtomDetached(c, j))
  {
    hide Chars, CharsOk, Boundary;
  }

  lemma {:induction false} DetachUndoesAttach(c: InlineContent, p: Caret, atom: NodeId)
    requires WfContent(c) && AtomAttached(c, p, atom).Ok?
    ensures CaretCut(c.atoms, p) < |AtomAttached(c, p, atom).value.atoms|
    ensures AtomDetached(AtomAttached(c, p, atom).value, CaretCut(c.atoms, p)) == c
  {
    hide Chars, CharsOk, Boundary, FirstAt, CountAt;
    var cut := CaretCut(c.atoms, p);
    var r := AtomAttached(c, p, atom).value;
    assert r.atoms[..cut] == c.atoms[..cut] && r.atoms[cut + 1..] == c.atoms[cut..];
    assert c.atoms[..cut] + c.atoms[cut..] == c.atoms;
  }

  lemma {:induction false} AttachUndoesDetach(c: InlineContent, j: nat)
    requires WfContent(c) && j < |c.atoms|
    ensures AtomAttached(AtomDetached(c, j), GapBefore(c.atoms, j), c.atoms[j].atom) == Ok(c)
  {
    hide Chars, CharsOk, FirstAt, CountAt;
    var d := AtomDetached(c, j);
    var p := GapBefore(c.atoms, j);
    assert Boundary(Chars(c.runs), c.atoms[j].offset);
    OffsetInText(Chars(c.runs), p.offset);
    DetachedCounts(c.atoms, j, p.offset);
    GapIsCaret(c.atoms, j);
    assert CaretCut(d.atoms, p) == j;
    assert d.atoms[..j] == c.atoms[..j] && d.atoms[j..] == c.atoms[j + 1..];
    assert c.atoms[..j] + [c.atoms[j]] + c.atoms[j + 1..] == c.atoms;
  }

  lemma {:induction false} DetachedFirst(atoms: seq<Placement>, j: nat, x: nat)
    requires SortedAtoms(atoms) && j < |atoms|
    ensures SortedAtoms(atoms[..j] + atoms[j + 1..])
    ensures FirstAt(atoms[..j] + atoms[j + 1..], x) == FirstAt(atoms, x) - (if atoms[j].offset < x then 1 else 0)
  {
    hide FirstAt;
    var d := atoms[..j] + atoms[j + 1..];
    assert forall i :: 0 <= i < |d| ==> d[i] == atoms[if i < j then i else i + 1];
    FirstAtUnique(d, x, FirstAt(atoms, x) - (if atoms[j].offset < x then 1 else 0));
  }

  lemma {:induction false} DetachedCounts(atoms: seq<Placement>, j: nat, x: nat)
    requires SortedAtoms(atoms) && j < |atoms|
    ensures var d := atoms[..j] + atoms[j + 1..];
      && FirstAt(d, x) == FirstAt(atoms, x) - (if atoms[j].offset < x then 1 else 0)
      && CountAt(d, x) == CountAt(atoms, x) - (if atoms[j].offset == x then 1 else 0)
  {
    hide FirstAt, CountAt, SortedAtoms;
    DetachedFirst(atoms, j, x);
    DetachedFirst(atoms, j, x + 1);
    CountIsGap(atoms, x);
    CountIsGap(atoms[..j] + atoms[j + 1..], x);
  }

  // Inserting one atom maps carets as inserting one item.
  lemma {:induction false} AtomInsertMapIsIndex(c: InlineContent, at: InlinePoint, atom: NodeId, point: InlinePoint,
                                                bias: MapBias)
    requires WfContent(c) && AtomAttached(c, CaretOf(at), atom).Ok?
    requires point.node == at.node && ValidCaret(c, CaretOf(point))
    ensures var r := AtomAttached(c, CaretOf(at), atom).value;
      var q := MapInlinePoint(InlineAtomInserted(at.node, at.offset, at.ordinal, atom), point, bias);
      && q.Mapped? && q.position.node == point.node && ValidCaret(r, CaretOf(q.position))
      && CaretIndex(r.atoms, CaretOf(q.position))
         == SpliceIndex(CaretIndex(c.atoms, CaretOf(point)), CaretIndex(c.atoms, CaretOf(at)), 0, 1, bias)
  {
    hide Chars, CharsOk, Boundary, FirstAt, CountAt, AtomAttached, WfContent, SpliceIndex;
    AttachedCounts(c, CaretOf(at), atom, point.offset);
    var q := MapInlinePoint(InlineAtomInserted(at.node, at.offset, at.ordinal, atom), point, bias).position;
    CaretOrder(c.atoms, CaretOf(point), CaretOf(at));
    SpliceOneIn(CaretIndex(c.atoms, CaretOf(point)), CaretIndex(c.atoms, CaretOf(at)), bias);
  }

  lemma SpliceOneIn(x: nat, at: nat, bias: MapBias)
    ensures SpliceIndex(x, at, 0, 1, bias) == if x < at || (x == at && bias == Start) then x else x + 1
  {}

  // The new placement counts at its own boundary and shifts the later ones.
  lemma {:induction false} AttachedCounts(c: InlineContent, p: Caret, atom: NodeId, x: nat)
    requires WfContent(c) && AtomAttached(c, p, atom).Ok?
    ensures SortedAtoms(c.atoms) && p.ordinal <= CountAt(c.atoms, p.offset)
    ensures var r := AtomAttached(c, p, atom).value;
      && r.runs == c.runs
      && FirstAt(r.atoms, x) == FirstAt(c.atoms, x) + (if p.offset < x then 1 else 0)
      && CountAt(r.atoms, x) == CountAt(c.atoms, x) + (if p.offset == x then 1 else 0)
  {
    hide Chars, CharsOk, Boundary, FirstAt, CountAt, CanonicalRuns;
    AttachedWf(c, p, atom);
    DetachUndoesAttach(c, p, atom);
    DetachedCounts(AtomAttached(c, p, atom).value.atoms, CaretCut(c.atoms, p), x);
  }

  // Removing one atom maps carets as removing one item.
  lemma {:induction false} AtomRemoveMapIsIndex(c: InlineContent, j: nat, node: NodeId, point: InlinePoint,
                                                bias: MapBias)
    requires WfContent(c) && j < |c.atoms| && point.node == node && ValidCaret(c, CaretOf(point))
    ensures var r := AtomDetached(c, j);
      var gap := GapBefore(c.atoms, j);
      var q := MapInlinePoint(InlineAtomRemoved(node, gap.offset, gap.ordinal, c.atoms[j].atom), point, bias);
      && q.Mapped? && q.position.node == node && ValidCaret(r, CaretOf(q.position))
      && CaretIndex(r.atoms, CaretOf(q.position))
         == SpliceIndex(CaretIndex(c.atoms, CaretOf(point)), CaretIndex(c.atoms, gap), 1, 0, bias)
  {
    hide Chars, CharsOk, Boundary, FirstAt, CountAt;
    GapIsCaret(c.atoms, j);
    DetachedCounts(c.atoms, j, point.offset);
    CaretOrder(c.atoms, CaretOf(point), GapBefore(c.atoms, j));
    CaretOrder(c.atoms, GapBefore(c.atoms, j), CaretOf(point));
  }
}
