// Mark inheritance at an exact mixed-inline gap
// (crates/xiaomu-core/src/document/input_marks.rs).
module InputMarks {
  import opened Wrappers
  import opened Text
  import opened Marks
  import opened Content
  import opened InlineEdit
  import opened Flat
  import opened Nodes

  // What one placed atom contributes: hard breaks always their marks, extension
  // atoms their marks unless empty.
  function AtomMarks(store: Store, id: NodeId): Result<Option<MarkSet>> {
    if id !in store then Err(UnknownNode)
    else
      var node := store[id];
      if !node.kind.InlineAtom? || !node.content.AtomPayload? then Err(InvalidSelection)
      else if node.kind.atom.HardBreak? || !node.content.marks.IsEmpty() then Ok(Some(node.content.marks))
      else Ok(None)
  }

  // Last contribution among atoms left of the gap.
  function LeftContribution(store: Store, atoms: seq<Placement>): Result<Option<MarkSet>> {
    if atoms == [] then Ok(None)
    else
      var earlier :- LeftContribution(store, atoms[..|atoms| - 1]);
      var last :- AtomMarks(store, atoms[|atoms| - 1].atom);
      Ok(if last.Some? then last else earlier)
  }

  // First contribution among atoms right of the gap.
  function RightContribution(store: Store, atoms: seq<Placement>): Result<Option<MarkSet>> {
    if atoms == [] then Ok(None)
    else
      var first :- AtomMarks(store, atoms[0].atom);
      if first.Some? then Ok(first) else RightContribution(store, atoms[1..])
  }

  // Placements at one offset, split at an ordinal.
  function SeamLeft(atoms: seq<Placement>, p: Caret): seq<Placement> {
    if CaretCut(atoms, p) <= |atoms| then atoms[FirstAt(atoms, p.offset)..CaretCut(atoms, p)] else []
  }

  function SeamRight(atoms: seq<Placement>, p: Caret): seq<Placement> {
    var end := FirstAt(atoms, p.offset) + CountAt(atoms, p.offset);
    if CaretCut(atoms, p) <= end <= |atoms| then atoms[CaretCut(atoms, p)..end] else []
  }

  // `right_marks`.
  function RightMarks(store: Store, c: InlineContent, p: Caret): Result<Option<MarkSet>> {
    var cs := Chars(c.runs);
    var atom :- RightContribution(store, SeamRight(c.atoms, p));
    Ok(if atom.Some? then atom else if p.offset < |cs| then Some(cs[p.offset].marks) else None)
  }

  // `inherited_marks_with_store`.
  function InheritedMarks(store: Store, c: InlineContent, p: Caret): Result<MarkSet> {
    var cs := Chars(c.runs);
    :- OffsetCheck(cs, p.offset);
    :- Need(p.ordinal <= CountAt(c.atoms, p.offset), InvalidSelection);
    var left :- LeftContribution(store, SeamLeft(c.atoms, p));
    if left.Some? then Ok(left.value)
    else if p.offset > 0 then Ok(cs[p.offset - 1].marks)
    else
      var right :- RightMarks(store, c, p);
      Ok(if right.Some? then right.value else NO_MARKS)
  }

  // ----- the loops

  method FindRightMarks(store: Store, c: InlineContent, p: Caret) returns (r: Result<Option<MarkSet>>)
    requires WfContent(c) && p.ordinal <= CountAt(c.atoms, p.offset)
    ensures r == RightMarks(store, c, p)
  {
    hide Chars, Marked, CharsOk, CanonicalRuns, FirstAt, CountAt, AtomMarks;
    AtomBlocks(c.atoms, p.offset);
    ghost var first, end := FirstAt(c.atoms, p.offset), FirstAt(c.atoms, p.offset) + CountAt(c.atoms, p.offset);
    ghost var cut := CaretCut(c.atoms, p);
    var skipped := 0;
    for i := 0 to |c.atoms|
      invariant i <= first ==> skipped == 0
      invariant first <= i <= cut ==> skipped == i - first
      invariant i >= cut ==> skipped == p.ordinal
      invariant RightContribution(store, c.atoms[cut..end])
        == RightContribution(store, if i <= cut then c.atoms[cut..end] else if i <= end then c.atoms[i..end] else [])
    {
      if c.atoms[i].offset == p.offset {
        if skipped < p.ordinal {
          skipped := skipped + 1;
        } else {
          assert c.atoms[i..end][0] == c.atoms[i] && c.atoms[i..end][1..] == c.atoms[i + 1..end];
          var marks := AtomMarks(store, c.atoms[i].atom);
          if marks.Err? {
            return Err(marks.error);
          }
          if marks.value.Some? {
            return marks;
          }
        }
      }
    }
    r := FirstRunAfter(c.runs, p.offset);
  }

  // The text part of the search to the right.
  method FirstRunAfter(runs: seq<TextRun>, offset: nat) returns (r: Result<Option<MarkSet>>)
    ensures r == Ok(if offset < |Chars(runs)| then Some(Chars(runs)[offset].marks) else None)
  {
    hide Chars, Marked;
    NoRuns();
    assert runs[..0] == [];
    var textEnd := 0;
    for i := 0 to |runs|
      invariant textEnd == |Chars(runs[..i])| <= offset
    {
      RunIsSlice(runs, i);
      textEnd := textEnd + |runs[i].text|;
      if offset < textEnd {
        RunMarksAt(runs, i, offset);
        return Ok(Some(runs[i].marks));
      }
    }
    assert runs[..|runs|] == runs;
    return Ok(None);
  }

  lemma {:induction false} RunMarksAt(runs: seq<TextRun>, k: nat, x: nat)
    requires k < |runs| && |Chars(runs[..k])| <= x < |Chars(runs[..k])| + |runs[k].text|
    ensures x < |Chars(runs)| && Chars(runs)[x].marks == runs[k].marks
  {
    hide Chars, Marked;
    RunIsSlice(runs, k);
    var lo, hi := |Chars(runs[..k])|, |Chars(runs[..k + 1])|;
    assert Chars(runs)[x] == Chars(runs)[lo..hi][x - lo];
    MarkedAt(runs[k].text, runs[k].marks, x - lo);
  }

  // The marks of the first run that reaches `offset`: `inherited_marks_at` of
  // inverse.rs, and the text part of the query below.
  method LeftRunMarksAt(runs: seq<TextRun>, offset: nat) returns (marks: MarkSet)
    requires CanonicalRuns(runs) && offset <= |Chars(runs)|
    ensures marks == Inherited(Chars(runs), offset)
  {
    hide Chars, Marked, CanonicalRuns, Inherited;
    NoRuns();
    var cursor := 0;
    for i := 0 to |runs|
      invariant cursor == |Chars(runs[..i])|
      invariant i > 0 ==> cursor < offset
    {
      RunIsSlice(runs, i);
      if i == 0 {
        assert runs[..i] == [];
      }
      if offset <= cursor + |runs[i].text| {
        LeftRunMarks(runs, i, offset);
        return runs[i].marks;
      }
      cursor := cursor + |runs[i].text|;
    }
    assert runs[..|runs|] == runs;
    NothingToInherit(runs);
    return NO_MARKS;
  }

  lemma NothingToInherit(runs: seq<TextRun>)
    ensures runs == [] ==> Inherited(Chars(runs), 0) == NO_MARKS
  {}

  method FindLeftAtomMarks(store: Store, atoms: seq<Placement>, p: Caret) returns (r: Result<Option<MarkSet>>)
    requires SortedAtoms(atoms) && p.ordinal <= CountAt(atoms, p.offset)
    ensures r == LeftContribution(store, SeamLeft(atoms, p))
  {
    hide FirstAt, CountAt, AtomMarks;
    AtomBlocks(atoms, p.offset);
    ghost var first, cut := FirstAt(atoms, p.offset), CaretCut(atoms, p);
    var taken := 0;
    var left: Option<MarkSet> := None;
    for i := 0 to |atoms|
      invariant taken == if i <= first then 0 else if i <= cut then i - first else p.ordinal
      invariant LeftContribution(store, atoms[first..first + taken]) == Ok(left)
    {
      if atoms[i].offset == p.offset && taken < p.ordinal {
        ghost var done := atoms[first..first + taken + 1];
        assert done[|done| - 1] == atoms[i] && done[..|done| - 1] == atoms[first..first + taken];
        var marks := AtomMarks(store, atoms[i].atom);
        if marks.Err? {
          LeftErrorStays(store, atoms[first..cut], taken);
          assert atoms[first..cut][..taken + 1] == done;
          return Err(marks.error);
        }
        if marks.value.Some? {
          left := marks.value;
        }
        taken := taken + 1;
      }
    }
    return Ok(left);
  }

  method FindInheritedMarks(store: Store, c: InlineContent, p: Caret) returns (r: Result<MarkSet>)
    requires WfContent(c)
    ensures r == InheritedMarks(store, c, p)
  {
    hide Chars, Marked, CharsOk, CanonicalRuns, FirstAt, CountAt, Boundary;
    hide LeftContribution, SeamLeft, RightMarks;
    var check := ValidateOffset(c.runs, p.offset);
    if check.Fail? {
      return Err(check.error);
    }
    var count := AtomCountAt(c.atoms, p.offset);
    if p.ordinal > count {
      return Err(InvalidSelection);
    }
    OffsetInText(Chars(c.runs), p.offset);
    var left := FindLeftAtomMarks(store, c.atoms, p);
    if left.Err? {
      return Err(left.error);
    }
    if left.value.Some? {
      return Ok(left.value.value);
    }
    if p.offset > 0 {
      var marks := LeftRunMarksAt(c.runs, p.offset);
      return Ok(marks);
    }
    var right := FindRightMarks(store, c, p);
    if right.Err? {
      return Err(right.error);
    }
    return Ok(if right.value.Some? then right.value.value else NO_MARKS);
  }

  // An error among the first `k + 1` atoms is the error of the whole scan.
  lemma {:induction false} LeftErrorStays(store: Store, atoms: seq<Placement>, k: nat)
    requires k < |atoms|
    ensures LeftContribution(store, atoms[..k + 1]).Err? ==>
      LeftContribution(store, atoms) == LeftContribution(store, atoms[..k + 1])
  {
    var n := |atoms| - 1;
    if k == n {
      assert atoms[..k + 1] == atoms;
    } else {
      LeftErrorStays(store, atoms[..n], k);
      assert atoms[..n][..k + 1] == atoms[..k + 1];
    }
  }

  // ----- the rule on flattened items

  ghost predicate ValidContribution(r: Result<Option<MarkSet>>) {
    r.Ok? && r.value.Some? ==> r.value.value.Valid()
  }

  // Every placed atom is a stored inline atom with a canonical mark set.
  ghost predicate AtomsKnown(store: Store, atoms: seq<Placement>) {
    forall i :: 0 <= i < |atoms| ==>
      AtomMarks(store, atoms[i].atom).Ok? && ValidContribution(AtomMarks(store, atoms[i].atom))
  }

  function Contribution(store: Store, item: Item): Option<MarkSet> {
    match item
    case TextItem(c) => Some(c.marks)
    case AtomItem(atom) => if AtomMarks(store, atom).Ok? then AtomMarks(store, atom).value else None
  }

  function NearestLeft(store: Store, items: seq<Item>): Option<MarkSet> {
    if items == [] then None
    else
      var last := Contribution(store, items[|items| - 1]);
      if last.Some? then last else NearestLeft(store, items[..|items| - 1])
  }

  function NearestRight(store: Store, items: seq<Item>): Option<MarkSet> {
    if items == [] then None
    else
      var first := Contribution(store, items[0]);
      if first.Some? then first else NearestRight(store, items[1..])
  }

  // Nearest contributing item on the left, else on the right, else no marks.
  function NearestMarks(store: Store, items: seq<Item>, index: nat): MarkSet
    requires index <= |items|
  {
    var left := NearestLeft(store, items[..index]);
    var right := NearestRight(store, items[index..]);
    if left.Some? then left.value else if right.Some? then right.value else NO_MARKS
  }

  lemma {:induction false} LeftItems(store: Store, cs: seq<Char>, atoms: seq<Placement>, first: nat)
    requires Placed(cs, atoms) && first <= |atoms| && AtomsKnown(store, atoms)
    requires forall i :: first <= i < |atoms| ==> atoms[i].offset == |cs|
    requires forall i :: 0 <= i < first ==> atoms[i].offset < |cs|
    ensures LeftContribution(store, atoms[first..]).Ok?
    ensures var atom := LeftContribution(store, atoms[first..]).value;
      NearestLeft(store, Flatten(cs, atoms)) ==
        if atom.Some? then atom else if |cs| > 0 then Some(cs[|cs| - 1].marks) else None
    decreases |atoms|
  {
    hide AtomMarks, Flatten, NearestLeft;
    var n := |atoms| - 1;
    if first < |atoms| {
      assert atoms[first..][..n - first] == atoms[..n][first..];
      FlattenAtEnd(cs, atoms);
      LeftItems(store, cs, atoms[..n], first);
      NearestLeftPush(store, Flatten(cs, atoms[..n]), AtomItem(atoms[n].atom));
    } else {
      assert atoms[first..] == [];
      FlattenEndsInText(cs, atoms);
      NearestLeftOfText(store, cs, atoms);
    }
  }

  lemma NearestLeftPush(store: Store, items: seq<Item>, item: Item)
    ensures NearestLeft(store, items + [item]) ==
      if Contribution(store, item).Some? then Contribution(store, item) else NearestLeft(store, items)
  {
    hide Contribution;
    assert (items + [item])[..|items|] == items;
  }

  // An atom at the end of the text is the last item.
  lemma FlattenAtEnd(cs: seq<Char>, atoms: seq<Placement>)
    requires Placed(cs, atoms) && atoms != [] && atoms[|atoms| - 1].offset == |cs|
    ensures Flatten(cs, atoms) == Flatten(cs, atoms[..|atoms| - 1]) + [AtomItem(atoms[|atoms| - 1].atom)]
  {
    hide Flatten;
    FlattenLast(cs, atoms);
    assert cs[..|cs|] == cs && cs[|cs|..] == [];
  }

  // With no atom at its end the content ends in its last character.
  lemma {:induction false} FlattenEndsInText(cs: seq<Char>, atoms: seq<Placement>)
    requires Placed(cs, atoms) && forall i :: 0 <= i < |atoms| ==> atoms[i].offset < |cs|
    ensures |cs| > 0 ==>
      Flatten(cs, atoms) != [] && Flatten(cs, atoms)[|Flatten(cs, atoms)| - 1] == TextItem(cs[|cs| - 1])
    ensures |cs| == 0 ==> Flatten(cs, atoms) == []
  {
    if atoms != [] {
      hide Flatten;
      FlattenLast(cs, atoms);
    }
  }

  lemma NearestLeftOfText(store: Store, cs: seq<Char>, atoms: seq<Placement>)
    requires Placed(cs, atoms)
    requires |cs| > 0 ==>
      Flatten(cs, atoms) != [] && Flatten(cs, atoms)[|Flatten(cs, atoms)| - 1] == TextItem(cs[|cs| - 1])
    requires |cs| == 0 ==> Flatten(cs, atoms) == []
    ensures NearestLeft(store, Flatten(cs, atoms)) == if |cs| > 0 then Some(cs[|cs| - 1].marks) else None
  {
    hide Flatten;
  }

  lemma TextsStart(cs: seq<Char>)
    requires cs != []
    ensures Texts(cs[..1]) == [TextItem(cs[0])]
  {}

  lemma {:induction false} FirstAtomItem(cs: seq<Char>, atoms: seq<Placement>)
    requires Placed(cs, atoms) && atoms != [] && atoms[0].offset == 0
    ensures Flatten(cs, atoms) == [AtomItem(atoms[0].atom)] + Flatten(cs, atoms[1..])
  {
    hide Texts, Flatten;
    FlattenCut(cs, atoms, 0, 1);
    var none: seq<Char> := cs[..0];
    var one := atoms[..1];
    assert cs[0..] == cs && Rebased(atoms[1..], 0) == atoms[1..];
    FlattenLast(none, one);
    assert none[..0] == [] && none[0..] == [] && one[..0] == [];
    FlattenNothing();
  }

  lemma FlattenNothing()
    ensures Flatten([], []) == [] && Texts([]) == []
  {}

  lemma {:induction false} FirstTextItem(cs: seq<Char>, atoms: seq<Placement>)
    requires Placed(cs, atoms) && cs != [] && (atoms == [] || atoms[0].offset > 0)
    ensures Flatten(cs, atoms) != [] && Flatten(cs, atoms)[0] == TextItem(cs[0])
  {
    hide Texts;
    FlattenCut(cs, atoms, 1, 0);
    assert atoms[..0] == [];
    TextsStart(cs);
  }

  lemma {:induction false} RightItems(store: Store, cs: seq<Char>, atoms: seq<Placement>, count: nat)
    requires Placed(cs, atoms) && count <= |atoms| && AtomsKnown(store, atoms)
    requires forall i :: 0 <= i < count ==> atoms[i].offset == 0
    requires forall i :: count <= i < |atoms| ==> atoms[i].offset > 0
    ensures RightContribution(store, atoms[..count]).Ok?
    ensures var atom := RightContribution(store, atoms[..count]).value;
      NearestRight(store, Flatten(cs, atoms)) ==
        if atom.Some? then atom else if |cs| > 0 then Some(cs[0].marks) else None
    decreases |atoms|
  {
    hide AtomMarks, Flatten;
    if count > 0 {
      FirstAtomItem(cs, atoms);
      assert atoms[..count][1..] == atoms[1..][..count - 1];
      RightItems(store, cs, atoms[1..], count - 1);
      assert Flatten(cs, atoms)[1..] == Flatten(cs, atoms[1..]);
    } else if cs == [] {
      FlattenLength(cs, atoms);
    } else {
      FirstTextItem(cs, atoms);
    }
  }

  // Exact-gap inheritance is the nearest-item rule.
  lemma {:induction false} InheritanceIsNearest(store: Store, c: InlineContent, p: Caret)
    requires WfContent(c) && ValidCaret(c, p) && AtomsKnown(store, c.atoms)
    ensures Placed(Chars(c.runs), c.atoms) && CaretIndex(c.atoms, p) <= |FlatOf(c)|
    ensures InheritedMarks(store, c, p) == Ok(NearestMarks(store, FlatOf(c), CaretIndex(c.atoms, p)))
  {
    hide Chars, CharsOk, CanonicalRuns, AtomMarks, Flatten, FirstAt, CountAt, LeftContribution, RightContribution;
    hide NearestLeft, NearestRight;
    WfIsPlaced(c);
    var cs, atoms := Chars(c.runs), c.atoms;
    OffsetInText(cs, p.offset);
    AtomBlocks(atoms, p.offset);
    CaretSplitsItems(cs, atoms, p);
    var first, cut, end := FirstAt(atoms, p.offset), CaretCut(atoms, p),
        FirstAt(atoms, p.offset) + CountAt(atoms, p.offset);
    assert atoms[..cut][first..] == SeamLeft(atoms, p);
    LeftItems(store, cs[..p.offset], atoms[..cut], first);
    var tail := Rebased(atoms[cut..], p.offset);
    RightItems(store, cs[p.offset..], tail, end - cut);
    SameContribution(store, tail[..end - cut], SeamRight(atoms, p));
  }

  lemma {:induction false} SameContribution(store: Store, a: seq<Placement>, b: seq<Placement>)
    requires |a| == |b| && forall i :: 0 <= i < |a| ==> a[i].atom == b[i].atom
    ensures RightContribution(store, a) == RightContribution(store, b)
  {
    if a != [] {
      SameContribution(store, a[1..], b[1..]);
    }
  }

  // Without atoms it is the text-only rule used by `splice_pieces`.
  lemma InheritanceWithoutAtoms(store: Store, c: InlineContent, offset: nat)
    requires WfContent(c) && c.atoms == [] && Boundary(Chars(c.runs), offset)
    ensures InheritedMarks(store, c, Caret(offset, 0)) == Ok(Inherited(Chars(c.runs), offset))
  {
    hide *;
    EmptySeam(store, c.atoms, Caret(offset, 0));
    InheritanceUnfolds(store, c, offset);
  }

  lemma EmptySeam(store: Store, atoms: seq<Placement>, p: Caret)
    requires atoms == [] && p.ordinal == 0
    ensures SeamLeft(atoms, p) == [] && SeamRight(atoms, p) == []
    ensures LeftContribution(store, []) == Ok(None) && RightContribution(store, []) == Ok(None)
  {
    AtomBlocks(atoms, p.offset);
  }

  lemma InheritanceUnfolds(store: Store, c: InlineContent, offset: nat)
    requires c.atoms == [] && Boundary(Chars(c.runs), offset)
    requires SeamLeft(c.atoms, Caret(offset, 0)) == [] && SeamRight(c.atoms, Caret(offset, 0)) == []
    requires LeftContribution(store, []) == Ok(None) && RightContribution(store, []) == Ok(None)
    ensures InheritedMarks(store, c, Caret(offset, 0)) == Ok(Inherited(Chars(c.runs), offset))
  {
    hide Chars, FirstAt, CountAt, SeamLeft, SeamRight, LeftContribution, RightContribution;
  }

  lemma {:induction false} LeftValid(store: Store, atoms: seq<Placement>)
    requires AtomsKnown(store, atoms)
    ensures ValidContribution(LeftContribution(store, atoms))
  {
    hide AtomMarks;
    if atoms != [] {
      LeftValid(store, atoms[..|atoms| - 1]);
    }
  }

  lemma {:induction false} RightValid(store: Store, atoms: seq<Placement>)
    requires AtomsKnown(store, atoms)
    ensures ValidContribution(RightContribution(store, atoms))
  {
    hide AtomMarks;
    if atoms != [] {
      RightValid(store, atoms[1..]);
    }
  }

  lemma {:induction false} InheritedIsValid(store: Store, c: InlineContent, p: Caret)
    requires WfContent(c) && AtomsKnown(store, c.atoms) && ValidCaret(c, p)
    ensures InheritedMarks(store, c, p).Ok? && InheritedMarks(store, c, p).value.Valid()
  {
    hide Chars, AtomMarks, CanonicalRuns, ValidUtf8, FirstAt, CountAt, LeftContribution, RightContribution;
    AtomBlocks(c.atoms, p.offset);
    LeftValid(store, SeamLeft(c.atoms, p));
    RightValid(store, SeamRight(c.atoms, p));
    InheritanceIsNearest(store, c, p);
  }
}
