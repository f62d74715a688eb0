// Mixed inline content: normalized marked runs plus ordered atom placements
// (crates/xiaomu-core/src/document/content.rs, text_run.rs, atom.rs).
module Content {
  import opened Wrappers
  import opened Text
  import opened Marks

  type NodeId = nat

  datatype TextRun = TextRun(text: seq<byte>, marks: MarkSet)

  datatype Placement = Placement(atom: NodeId, offset: nat)

  datatype InlineContent = InlineContent(runs: seq<TextRun>, atoms: seq<Placement>)

  // One byte of text with the marks it carries.
  datatype Char = Char(b: byte, marks: MarkSet)

  function Marked(text: seq<byte>, marks: MarkSet): (r: seq<Char>)
    ensures |r| == |text|
  {
    seq(|text|, i requires 0 <= i < |text| => Char(text[i], marks))
  }

  function Bytes(cs: seq<Char>): (r: seq<byte>)
    ensures |r| == |cs|
  {
    seq(|cs|, i requires 0 <= i < |cs| => cs[i].b)
  }

  // The meaning of a run list: its bytes, each with its marks.
  function Chars(runs: seq<TextRun>): seq<Char> {
    if runs == [] then []
    else
      var n := |runs| - 1;
      Chars(runs[..n]) + Marked(runs[n].text, runs[n].marks)
  }

  predicate CanonicalRuns(runs: seq<TextRun>) {
    && (forall k :: 0 <= k < |runs| ==> runs[k].text != [])
    && (forall k :: 0 < k < |runs| ==> runs[k - 1].marks != runs[k].marks)
  }

  // A scalar boundary of the concatenated text.
  predicate Boundary(cs: seq<Char>, i: int) {
    0 <= i <= |cs| && (i == 0 || i == |cs| || !IsContinuation(cs[i].b))
  }

  predicate MarksOk(cs: seq<Char>) {
    forall i :: 0 <= i < |cs| ==> cs[i].marks.Valid()
  }

  // Text that can be stored: valid UTF-8 whose mark sets are canonical and
  // change between scalars only.
  predicate CharsOk(cs: seq<Char>) {
    && ValidUtf8(Bytes(cs))
    && MarksOk(cs)
    && forall i :: 0 < i < |cs| && cs[i - 1].marks != cs[i].marks ==> !IsContinuation(cs[i].b)
  }

  predicate SortedAtoms(atoms: seq<Placement>) {
    forall i, j :: 0 <= i < j < |atoms| ==> atoms[i].offset <= atoms[j].offset
  }

  predicate DistinctAtoms(atoms: seq<Placement>) {
    forall i, j :: 0 <= i < j < |atoms| ==> atoms[i].atom != atoms[j].atom
  }

  predicate AnchoredAtoms(cs: seq<Char>, atoms: seq<Placement>) {
    forall i :: 0 <= i < |atoms| ==> Boundary(cs, atoms[i].offset)
  }

  // What every `InlineContent` value satisfies once constructed.
  predicate WfContent(c: InlineContent) {
    && CanonicalRuns(c.runs)
    && CharsOk(Chars(c.runs))
    && SortedAtoms(c.atoms)
    && DistinctAtoms(c.atoms)
    && AnchoredAtoms(Chars(c.runs), c.atoms)
  }

  // ----- run lists and their characters

  lemma {:induction false} CharsAppend(a: seq<TextRun>, b: seq<TextRun>)
    ensures Chars(a + b) == Chars(a) + Chars(b)
  {
    hide Marked;
    if b == [] {
      assert a + b == a;
    } else {
      var n := |b| - 1;
      CharsAppend(a, b[..n]);
      assert (a + b)[..|a| + n] == a + b[..n];
      assert (a + b)[|a| + n] == b[n];
      Regrouped(Chars(a), Chars(b[..n]), Marked(b[n].text, b[n].marks));
    }
  }

  lemma Regrouped<T>(a: seq<T>, b: seq<T>, c: seq<T>)
    ensures a + b + c == a + (b + c)
  {
  }

  lemma NoRuns()
    ensures Chars([]) == []
  {}

  lemma CharsOfOne(run: TextRun)
    ensures Chars([run]) == Marked(run.text, run.marks)
  {
    assert [run][..0] == [];
  }

  lemma CharsPush(runs: seq<TextRun>, run: TextRun)
    ensures Chars(runs + [run]) == Chars(runs) + Marked(run.text, run.marks)
  {
    hide Marked, Chars;
    CharsAppend(runs, [run]);
    CharsOfOne(run);
  }

  // Where run `k` lies in the concatenated text.
  lemma CharsOfRun(runs: seq<TextRun>, k: nat)
    requires k < |runs|
    ensures |Chars(runs[..k])| + |runs[k].text| <= |Chars(runs)|
    ensures Chars(runs[..k + 1]) == Chars(runs[..k]) + Marked(runs[k].text, runs[k].marks)
    ensures Chars(runs)[..|Chars(runs[..k])|] == Chars(runs[..k])
    ensures Chars(runs)[|Chars(runs[..k])|..|Chars(runs[..k + 1])|] == Marked(runs[k].text, runs[k].marks)
  {
    hide Marked;
    CharsAppend(runs[..k + 1], runs[k + 1..]);
    assert runs[..k + 1] + runs[k + 1..] == runs;
    assert runs[..k + 1][..k] == runs[..k];
  }

  // Every position of the text lies in one run.
  lemma {:induction false} RunAt(runs: seq<TextRun>, i: nat) returns (k: nat)
    requires i < |Chars(runs)|
    ensures k < |runs|
    ensures |Chars(runs[..k])| <= i < |Chars(runs[..k + 1])|
    ensures Chars(runs[..k + 1]) == Chars(runs[..k]) + Marked(runs[k].text, runs[k].marks)
    ensures Chars(runs)[i] == Char(runs[k].text[i - |Chars(runs[..k])|], runs[k].marks)
  {
    var n := |runs| - 1;
    if i >= |Chars(runs[..n])| {
      k := n;
      assert runs[..n + 1] == runs;
    } else {
      k := RunAt(runs[..n], i);
      assert runs[..n][..k] == runs[..k] && runs[..n][..k + 1] == runs[..k + 1];
    }
  }

  lemma {:induction false} CharsEmpty(runs: seq<TextRun>)
    requires CanonicalRuns(runs)
    ensures Chars(runs) == [] <==> runs == []
  {}

  // The last run is the longest suffix with its marks.
  lemma LastRunIsMaximal(runs: seq<TextRun>)
    requires CanonicalRuns(runs) && runs != []
    ensures var n := |runs| - 1; var start := |Chars(runs[..n])|;
      && start < |Chars(runs)|
      && (forall i :: start <= i < |Chars(runs)| ==> Chars(runs)[i].marks == runs[n].marks)
      && (start > 0 ==> Chars(runs)[start - 1].marks != runs[n].marks)
  {
    var n := |runs| - 1;
    if n > 0 {
      var prefix := runs[..n];
      assert prefix[n - 1] == runs[n - 1];
      assert Chars(prefix) == Chars(prefix[..n - 1]) + Marked(runs[n - 1].text, runs[n - 1].marks);
    }
  }

  lemma MarkedInjective(s: seq<byte>, t: seq<byte>, m: MarkSet, n: MarkSet)
    requires Marked(s, m) == Marked(t, n)
    ensures s == t
  {
    forall k | 0 <= k < |s|
      ensures s[k] == t[k]
    {
      assert Marked(s, m)[k].b == Marked(t, n)[k].b;
    }
  }

  lemma LastRunsAgree(a: seq<TextRun>, b: seq<TextRun>)
    requires CanonicalRuns(a) && CanonicalRuns(b) && Chars(a) == Chars(b) && a != [] && b != []
    ensures a[|a| - 1] == b[|b| - 1]
    ensures Chars(a[..|a| - 1]) == Chars(b[..|b| - 1])
  {
    LastRunIsMaximal(a);
    LastRunIsMaximal(b);
    var la, lb := a[|a| - 1], b[|b| - 1];
    var pa, pb := Chars(a[..|a| - 1]), Chars(b[..|b| - 1]);
    var cs := Chars(a);
    assert cs[|cs| - 1].marks == la.marks == lb.marks;
    assert |pa| == |pb|;
    assert pa == cs[..|pa|] == pb;
    assert Marked(la.text, la.marks) == cs[|pa|..] == Marked(lb.text, lb.marks);
    MarkedInjective(la.text, lb.text, la.marks, lb.marks);
  }

  // A normalized run list is determined by the marks of its bytes.
  lemma {:induction false} CanonicalRunsUnique(a: seq<TextRun>, b: seq<TextRun>)
    requires CanonicalRuns(a) && CanonicalRuns(b) && Chars(a) == Chars(b)
    ensures a == b
    decreases |a|
  {
    hide Marked;
    CharsEmpty(a);
    CharsEmpty(b);
    if a != [] {
      LastRunsAgree(a, b);
      var n, m := |a| - 1, |b| - 1;
      CanonicalPrefix(a, n);
      CanonicalPrefix(b, m);
      CanonicalRunsUnique(a[..n], b[..m]);
      assert a == a[..n] + [a[n]] && b == b[..m] + [b[m]];
    }
  }

  lemma CanonicalPrefix(runs: seq<TextRun>, n: nat)
    requires CanonicalRuns(runs) && n <= |runs|
    ensures CanonicalRuns(runs[..n])
  {}

  // ----- normalization

  function PushRun(normalized: seq<TextRun>, run: TextRun): seq<TextRun> {
    var n := |normalized| - 1;
    if n >= 0 && normalized[n].marks == run.marks then
      normalized[..n] + [TextRun(normalized[n].text + run.text, run.marks)]
    else
      normalized + [run]
  }

  lemma MarkedConcat(s: seq<byte>, t: seq<byte>, marks: MarkSet)
    ensures Marked(s + t, marks) == Marked(s, marks) + Marked(t, marks)
  {}

  lemma PushRunMeans(normalized: seq<TextRun>, run: TextRun)
    requires CanonicalRuns(normalized) && run.text != []
    ensures CanonicalRuns(PushRun(normalized, run))
    ensures Chars(PushRun(normalized, run)) == Chars(normalized) + Marked(run.text, run.marks)
  {
    hide Marked;
    var n := |normalized| - 1;
    if n >= 0 && normalized[n].marks == run.marks {
      CharsPush(normalized[..n], TextRun(normalized[n].text + run.text, run.marks));
      MarkedConcat(normalized[n].text, run.text, run.marks);
    } else {
      CharsPush(normalized, run);
    }
  }

  // The one normalized run list with the given characters.
  function Group(cs: seq<Char>): (runs: seq<TextRun>)
    ensures CanonicalRuns(runs) && Chars(runs) == cs
  {
    if cs == [] then []
    else
      var n := |cs| - 1;
      var run := TextRun([cs[n].b], cs[n].marks);
      PushRunMeans(Group(cs[..n]), run);
      assert Marked(run.text, run.marks) == [cs[n]];
      assert cs == cs[..n] + [cs[n]];
      PushRun(Group(cs[..n]), run)
  }

  method NormalizeRuns(runs: seq<TextRun>) returns (normalized: seq<TextRun>)
    requires forall k :: 0 <= k < |runs| ==> runs[k].text != []
    ensures normalized == Group(Chars(runs))
  {
    hide Marked, Group;
    normalized := [];
    for i := 0 to |runs|
      invariant CanonicalRuns(normalized)
      invariant Chars(normalized) == Chars(runs[..i])
    {
      var run := runs[i];
      var last := |normalized| - 1;
      CharsOfRun(runs, i);
      PushRunMeans(normalized, run);
      if last >= 0 && normalized[last].marks == run.marks {
        normalized := normalized[last := TextRun(normalized[last].text + run.text, normalized[last].marks)];
        continue;
      }
      normalized := normalized + [run];
    }
    assert runs[..|runs|] == runs;
    CanonicalRunsUnique(normalized, Group(Chars(runs)));
  }

  lemma RunStartIsBoundary(runs: seq<TextRun>, k: nat)
    requires CanonicalRuns(runs) && CharsOk(Chars(runs)) && k < |runs|
    ensures var i := |Chars(runs[..k])|;
      i < |Chars(runs)| && Boundary(Chars(runs), i) && IsBoundary(Bytes(Chars(runs)), i)
  {
    var cs := Chars(runs);
    var i := |Chars(runs[..k])|;
    CharsOfRun(runs, k);
    assert cs[i] == cs[i..|Chars(runs[..k + 1])|][0] == Marked(runs[k].text, runs[k].marks)[0];
    if k > 0 {
      CharsOfRun(runs, k - 1);
      var h := |Chars(runs[..k - 1])|;
      assert cs[i - 1] == cs[h..i][i - 1 - h] == Marked(runs[k - 1].text, runs[k - 1].marks)[i - 1 - h];
    }
  }

  // Storable texts concatenate: the second starts at a scalar.
  lemma {:induction false} ConcatOk(a: seq<Char>, b: seq<Char>)
    requires CharsOk(a) && CharsOk(b)
    ensures CharsOk(a + b)
  {
    hide ValidUtf8, IsContinuation;
    var cs := a + b;
    ConcatValid(Bytes(a), Bytes(b));
    assert Bytes(cs) == Bytes(a) + Bytes(b);
    if b != [] {
      FirstIsLead(Bytes(b));
    }
    forall i | 0 < i < |cs| && cs[i - 1].marks != cs[i].marks
      ensures !IsContinuation(cs[i].b)
    {
      if i < |a| {
        assert cs[i] == a[i] && cs[i - 1] == a[i - 1];
      } else if i > |a| {
        assert cs[i] == b[i - |a|] && cs[i - 1] == b[i - |a| - 1];
      } else {
        assert cs[i].b == Bytes(b)[0];
      }
    }
  }

  lemma MarkedOk(text: seq<byte>, marks: MarkSet)
    requires ValidUtf8(text) && marks.Valid()
    ensures CharsOk(Marked(text, marks))
  {
    hide ValidUtf8;
    assert Bytes(Marked(text, marks)) == text;
  }

  // Runs of valid text concatenate to storable text.
  lemma {:induction false} ValidRunsAreOk(runs: seq<TextRun>)
    requires forall k :: 0 <= k < |runs| ==>
      runs[k].text != [] && ValidUtf8(runs[k].text) && runs[k].marks.Valid()
    ensures CharsOk(Chars(runs))
  {
    if runs != [] {
      hide CharsOk, Marked, ValidUtf8;
      var n := |runs| - 1;
      ValidRunsAreOk(runs[..n]);
      MarkedOk(runs[n].text, runs[n].marks);
      ConcatOk(Chars(runs[..n]), Marked(runs[n].text, runs[n].marks));
    }
  }

  // ----- coordinates

  function OffsetCheck(cs: seq<Char>, offset: nat): Outcome {
    if offset > |cs| then Fail(TextOutOfBounds)
    else if !Boundary(cs, offset) then Fail(InvalidTextBoundary)
    else Pass
  }

  method LenBytes(runs: seq<TextRun>) returns (n: nat)
    ensures n == |Chars(runs)|
  {
    n := 0;
    for i := 0 to |runs|
      invariant n == |Chars(runs[..i])|
    {
      CharsOfRun(runs, i);
      n := n + |runs[i].text|;
    }
    assert runs[..|runs|] == runs;
  }

  method ValidateOffset(runs: seq<TextRun>, offset: nat) returns (r: Outcome)
    requires CanonicalRuns(runs) && CharsOk(Chars(runs))
    ensures r == OffsetCheck(Chars(runs), offset)
  {
    hide CharsOk, CanonicalRuns;
    var len := LenBytes(runs);
    if offset > len {
      return Fail(TextOutOfBounds);
    }
    var remaining := offset;
    for i := 0 to |runs|
      invariant remaining + |Chars(runs[..i])| == offset
      invariant i > 0 ==> remaining > 0
    {
      var run := runs[i];
      CharsOfRun(runs, i);
      if remaining <= |run.text| {
        BoundaryWithinRun(runs, i, offset);
        return if IsBoundary(run.text, remaining) then Pass else Fail(InvalidTextBoundary);
      }
      remaining := remaining - |run.text|;
    }
    assert runs[..|runs|] == runs;
    return Pass;
  }

  // Within one run, boundaries of the run are boundaries of the whole text.
  lemma BoundaryWithinRun(runs: seq<TextRun>, k: nat, offset: nat)
    requires CanonicalRuns(runs) && CharsOk(Chars(runs)) && k < |runs|
    requires |Chars(runs[..k])| <= offset <= |Chars(runs[..k])| + |runs[k].text|
    ensures Boundary(Chars(runs), offset) <==> IsBoundary(runs[k].text, offset - |Chars(runs[..k])|)
  {
    var cs, start := Chars(runs), |Chars(runs[..k])|;
    CharsOfRun(runs, k);
    RunStartIsBoundary(runs, k);
    var end := start + |runs[k].text|;
    if offset == end {
      if k + 1 < |runs| {
        RunStartIsBoundary(runs, k + 1);
      } else {
        assert runs[..k + 1] == runs;
      }
    } else {
      assert cs[offset] == cs[start..end][offset - start] == Marked(runs[k].text, runs[k].marks)[offset - start];
    }
  }

  // ----- atom placements

  // Number of placements anchored before `offset`.
  function FirstAt(atoms: seq<Placement>, offset: nat): (r: nat)
    ensures r <= |atoms|
    ensures forall j :: 0 <= j < r ==> atoms[j].offset < offset
    ensures r < |atoms| ==> atoms[r].offset >= offset
  {
    if atoms == [] || atoms[0].offset >= offset then 0 else 1 + FirstAt(atoms[1..], offset)
  }

  // Number of placements anchored exactly at `offset`.
  function CountAt(atoms: seq<Placement>, offset: nat): nat {
    if atoms == [] then 0
    else (if atoms[0].offset == offset then 1 else 0) + CountAt(atoms[1..], offset)
  }

  lemma FirstAtUnique(atoms: seq<Placement>, offset: nat, r: nat)
    requires r <= |atoms|
    requires forall j :: 0 <= j < r ==> atoms[j].offset < offset
    requires r < |atoms| ==> atoms[r].offset >= offset
    ensures FirstAt(atoms, offset) == r
  {}

  // On sorted placements, those at one offset are consecutive.
  lemma {:induction false} CountIsGap(atoms: seq<Placement>, offset: nat)
    requires SortedAtoms(atoms)
    ensures CountAt(atoms, offset) == FirstAt(atoms, offset + 1) - FirstAt(atoms, offset)
  {
    if atoms != [] {
      CountIsGap(atoms[1..], offset);
      if atoms[0].offset > offset {
        FirstAtUnique(atoms[1..], offset, 0);
        FirstAtUnique(atoms[1..], offset + 1, 0);
      } else if atoms[0].offset == offset {
        FirstAtUnique(atoms[1..], offset, 0);
      }
    }
  }

  method AtomCountAt(atoms: seq<Placement>, offset: nat) returns (n: nat)
    ensures n == CountAt(atoms, offset)
  {
    n := 0;
    var i := |atoms|;
    while i > 0
      invariant 0 <= i <= |atoms|
      invariant n == CountAt(atoms[i..], offset)
    {
      i := i - 1;
      assert atoms[i..][1..] == atoms[i + 1..];
      if atoms[i].offset == offset {
        n := n + 1;
      }
    }
  }

  function Identities(atoms: seq<Placement>): (r: seq<NodeId>)
    ensures |r| == |atoms|
  {
    seq(|atoms|, i requires 0 <= i < |atoms| => atoms[i].atom)
  }

  // `sort_by_key(text_offset)`, as a stable insertion sort.
  function InsertPlacement(sorted: seq<Placement>, p: Placement): seq<Placement> {
    if sorted == [] || sorted[|sorted| - 1].offset <= p.offset then sorted + [p]
    else InsertPlacement(sorted[..|sorted| - 1], p) + [sorted[|sorted| - 1]]
  }

  function SortPlacements(atoms: seq<Placement>): seq<Placement> {
    if atoms == [] then []
    else InsertPlacement(SortPlacements(atoms[..|atoms| - 1]), atoms[|atoms| - 1])
  }

  lemma {:induction false} SortedIsFixed(atoms: seq<Placement>)
    requires SortedAtoms(atoms)
    ensures SortPlacements(atoms) == atoms
  {
    if atoms != [] {
      SortedIsFixed(atoms[..|atoms| - 1]);
      assert atoms == atoms[..|atoms| - 1] + [atoms[|atoms| - 1]];
    }
  }

  lemma {:induction false} InsertMembers(sorted: seq<Placement>, p: Placement)
    ensures forall q :: q in InsertPlacement(sorted, p) <==> q == p || q in sorted
  {
    if sorted == [] || sorted[|sorted| - 1].offset <= p.offset {
    } else {
      var n := |sorted| - 1;
      InsertMembers(sorted[..n], p);
      assert sorted == sorted[..n] + [sorted[n]];
    }
  }

  lemma {:induction false} InsertKeepsOrder(sorted: seq<Placement>, p: Placement)
    requires SortedAtoms(sorted)
    ensures SortedAtoms(InsertPlacement(sorted, p))
  {
    if sorted == [] || sorted[|sorted| - 1].offset <= p.offset {
    } else {
      var n := |sorted| - 1;
      InsertKeepsOrder(sorted[..n], p);
      InsertMembers(sorted[..n], p);
      var r := InsertPlacement(sorted[..n], p);
      forall j | 0 <= j < |r|
        ensures r[j].offset <= sorted[n].offset
      {
        assert r[j] in r;
      }
    }
  }

  lemma {:induction false} InsertKeepsDistinct(sorted: seq<Placement>, p: Placement)
    requires DistinctAtoms(sorted) && forall q :: q in sorted ==> q.atom != p.atom
    ensures DistinctAtoms(InsertPlacement(sorted, p))
  {
    if sorted == [] || sorted[|sorted| - 1].offset <= p.offset {
    } else {
      var n := |sorted| - 1;
      assert forall q :: q in sorted[..n] ==> q in sorted;
      InsertKeepsDistinct(sorted[..n], p);
      InsertMembers(sorted[..n], p);
      var r := InsertPlacement(sorted[..n], p);
      forall j | 0 <= j < |r|
        ensures r[j].atom != sorted[n].atom
      {
        assert r[j] in r;
        assert sorted[n] in sorted;
      }
    }
  }

  lemma {:induction false} SortPlacementsSorts(atoms: seq<Placement>)
    ensures SortedAtoms(SortPlacements(atoms))
    ensures forall q :: q in SortPlacements(atoms) <==> q in atoms
  {
    if atoms != [] {
      var n := |atoms| - 1;
      SortPlacementsSorts(atoms[..n]);
      InsertKeepsOrder(SortPlacements(atoms[..n]), atoms[n]);
      InsertMembers(SortPlacements(atoms[..n]), atoms[n]);
      assert atoms == atoms[..n] + [atoms[n]];
    }
  }

  lemma {:induction false} SortKeepsDistinct(atoms: seq<Placement>)
    requires DistinctAtoms(atoms)
    ensures DistinctAtoms(SortPlacements(atoms))
  {
    if atoms != [] {
      var n := |atoms| - 1;
      SortKeepsDistinct(atoms[..n]);
      SortPlacementsSorts(atoms[..n]);
      InsertKeepsDistinct(SortPlacements(atoms[..n]), atoms[n]);
    }
  }

  lemma SortKeepsAnchors(cs: seq<Char>, atoms: seq<Placement>)
    requires AnchoredAtoms(cs, atoms)
    ensures AnchoredAtoms(cs, SortPlacements(atoms))
  {
    SortPlacementsSorts(atoms);
    var sorted := SortPlacements(atoms);
    forall i | 0 <= i < |sorted|
      ensures Boundary(cs, sorted[i].offset)
    {
      assert sorted[i] in sorted;
    }
  }

  // Construction fails exactly on a bad anchor or a repeated identity; otherwise
  // it normalizes the runs and stably orders the placements by offset.
  method WithAtoms(runs: seq<TextRun>, atoms: seq<Placement>) returns (r: Result<InlineContent>)
    requires forall k :: 0 <= k < |runs| ==> runs[k].text != []
    requires CharsOk(Chars(runs))
    ensures r.Ok? <==> AnchoredAtoms(Chars(runs), atoms) && DistinctAtoms(atoms)
    ensures r.Ok? ==> r.value == InlineContent(Group(Chars(runs)), SortPlacements(atoms))
    ensures r.Ok? ==> WfContent(r.value)
  {
    hide Chars, CharsOk, CanonicalRuns, Group, SortPlacements;
    var normalized := NormalizeRuns(runs);
    var identities: set<NodeId> := {};
    for i := 0 to |atoms|
      invariant forall j :: 0 <= j < i ==> atoms[j].atom in identities
      invariant forall id :: id in identities ==> exists j :: 0 <= j < i && atoms[j].atom == id
      invariant forall j :: 0 <= j < i ==> Boundary(Chars(runs), atoms[j].offset)
      invariant forall j, k :: 0 <= j < k < i ==> atoms[j].atom != atoms[k].atom
    {
      var check := ValidateOffset(normalized, atoms[i].offset);
      if check.Fail? {
        assert !Boundary(Chars(runs), atoms[i].offset);
        return Err(check.error);
      }
      if atoms[i].atom in identities {
        return Err(DuplicateInlineAtomReference);
      }
      identities := identities + {atoms[i].atom};
    }
    SortPlacementsSorts(atoms);
    SortKeepsDistinct(atoms);
    SortKeepsAnchors(Chars(runs), atoms);
    return Ok(InlineContent(normalized, SortPlacements(atoms)));
  }
}
