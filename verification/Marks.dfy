// Inline marks and canonical mark sets (crates/xiaomu-core/src/document/marks.rs).
module Marks {
  import opened Wrappers
  import opened Text

  datatype MarkKind = Bold | Italic | Code | Underline | Strike | Link | TextStyle

  // Position in the derived order of `MarkKind`.
  function Rank(kind: MarkKind): nat {
    match kind
    case Bold => 0
    case Italic => 1
    case Code => 2
    case Underline => 3
    case Strike => 4
    case Link => 5
    case TextStyle => 6
  }

  // The kinds in the order they are declared, which sorts a mark set.
  const KINDS: seq<MarkKind> := [Bold, Italic, Code, Underline, Strike, Link, TextStyle]

  lemma RankIsDeclared(kind: MarkKind)
    ensures Rank(kind) < |KINDS| && KINDS[Rank(kind)] == kind
  {}

  // Text-style attributes are opaque values with equality.
  datatype Mark =
    | BoldMark
    | ItalicMark
    | CodeMark
    | UnderlineMark
    | StrikeMark
    | LinkMark(href: seq<byte>, title: Option<seq<byte>>)
    | TextStyleMark(style: seq<byte>)
  {
    function Kind(): MarkKind {
      match this
      case BoldMark => Bold
      case ItalicMark => Italic
      case CodeMark => Code
      case UnderlineMark => Underline
      case StrikeMark => Strike
      case LinkMark(_, _) => Link
      case TextStyleMark(_) => TextStyle
    }
  }

  // One mark per kind, in the order of the kinds.
  predicate Canonical(marks: seq<Mark>) {
    forall i, j :: 0 <= i < j < |marks| ==> Rank(marks[i].Kind()) < Rank(marks[j].Kind())
  }

  datatype MarkSet = MarkSet(marks: seq<Mark>) {
    predicate Valid() {
      Canonical(marks)
    }
    predicate IsEmpty() {
      marks == []
    }
  }

  const NO_MARKS := MarkSet([])

  // No two marks of one kind disagree.
  predicate Consistent(marks: seq<Mark>) {
    forall i, j :: 0 <= i < j < |marks| && marks[i].Kind() == marks[j].Kind() ==> marks[i] == marks[j]
  }

  predicate ContainsKind(marks: seq<Mark>, kind: MarkKind) {
    exists m :: m in marks && m.Kind() == kind
  }

  lemma RankIsInjective(a: MarkKind, b: MarkKind)
    ensures Rank(a) == Rank(b) ==> a == b
  {}

  lemma HasMember(marks: seq<Mark>)
    ensures marks == [] || exists m :: m in marks
  {
    if marks != [] {
      assert marks[0] in marks;
    }
  }

  // A canonical set is determined by its members.
  lemma {:induction false} MarkSetExtensional(a: seq<Mark>, b: seq<Mark>)
    requires Canonical(a) && Canonical(b)
    requires forall m :: m in a <==> m in b
    ensures a == b
  {
    if a == [] {
      HasMember(b);
    } else {
      assert a[0] in b && a[0] in a;
      assert b[0] in a;
      assert a[0] == b[0];
      forall m
        ensures m in a[1..] <==> m in b[1..]
      {
        if m in a[1..] {
          assert m in a && m != a[0];
        }
        if m in b[1..] {
          assert m in b && m != b[0];
        }
      }
      MarkSetExtensional(a[1..], b[1..]);
      assert a == [a[0]] + a[1..] && b == [b[0]] + b[1..];
    }
  }

  // `sort_by_key(Mark::kind)`, as a stable insertion sort.
  function InsertByKind(sorted: seq<Mark>, mark: Mark): (r: seq<Mark>)
    ensures |r| == |sorted| + 1
    ensures forall m :: m in r <==> m == mark || m in sorted
  {
    if sorted == [] || Rank(sorted[0].Kind()) > Rank(mark.Kind()) then [mark] + sorted
    else
      assert sorted == [sorted[0]] + sorted[1..];
      [sorted[0]] + InsertByKind(sorted[1..], mark)
  }

  function SortByKind(marks: seq<Mark>): (r: seq<Mark>)
    ensures |r| == |marks|
    ensures forall m :: m in r <==> m in marks
  {
    if marks == [] then []
    else
      var n := |marks| - 1;
      assert marks == marks[..n] + [marks[n]];
      InsertByKind(SortByKind(marks[..n]), marks[n])
  }

  predicate SortedByKind(marks: seq<Mark>) {
    forall i, j :: 0 <= i < j < |marks| ==> Rank(marks[i].Kind()) <= Rank(marks[j].Kind())
  }

  lemma {:induction false} InsertKeepsSorted(sorted: seq<Mark>, mark: Mark)
    requires SortedByKind(sorted)
    ensures SortedByKind(InsertByKind(sorted, mark))
  {
    if sorted == [] || Rank(sorted[0].Kind()) > Rank(mark.Kind()) {
    } else {
      InsertKeepsSorted(sorted[1..], mark);
      var rest := InsertByKind(sorted[1..], mark);
      forall j | 0 <= j < |rest|
        ensures Rank(sorted[0].Kind()) <= Rank(rest[j].Kind())
      {
        assert rest[j] in rest;
      }
    }
  }

  lemma {:induction false} SortSorts(marks: seq<Mark>)
    ensures SortedByKind(SortByKind(marks))
  {
    if marks != [] {
      var n := |marks| - 1;
      SortSorts(marks[..n]);
      InsertKeepsSorted(SortByKind(marks[..n]), marks[n]);
    }
  }

  lemma {:induction false} InsertKeepsCanonical(marks: seq<Mark>, mark: Mark)
    requires Canonical(marks) && !ContainsKind(marks, mark.Kind())
    ensures Canonical(InsertByKind(marks, mark))
  {
    if marks != [] && Rank(marks[0].Kind()) <= Rank(mark.Kind()) {
      var rest := InsertByKind(marks[1..], mark);
      CanonicalTail(marks);
      assert marks[0] in marks;
      RankIsInjective(marks[0].Kind(), mark.Kind());
      InsertKeepsCanonical(marks[1..], mark);
      CanonicalPush(marks[0], rest);
    }
  }

  lemma CanonicalTail(marks: seq<Mark>)
    requires Canonical(marks) && marks != []
    ensures Canonical(marks[1..])
    ensures forall m :: m in marks[1..] ==> m in marks && Rank(marks[0].Kind()) < Rank(m.Kind())
  {}

  lemma CanonicalPush(first: Mark, rest: seq<Mark>)
    requires Canonical(rest) && forall m :: m in rest ==> Rank(first.Kind()) < Rank(m.Kind())
    ensures Canonical([first] + rest)
  {
    assert forall j :: 0 <= j < |rest| ==> rest[j] in rest;
  }

  // `MarkSet::new`: succeeds exactly on consistent marks, and then returns the
  // one canonical set with the same members.
  method NewMarkSet(marks: seq<Mark>) returns (r: Result<MarkSet>)
    ensures r.Ok? <==> Consistent(marks)
    ensures r.Ok? ==> r.value.Valid() && forall m :: m in r.value.marks <==> m in marks
    ensures r.Err? ==> r.error == InvalidMarkSet
  {
    hide SortByKind, Rank, Canonical, SortedByKind;
    var sorted := SortByKind(marks);
    SortSorts(marks);
    var normalized: seq<Mark> := [];
    EmptyIsCanonical();
    for i := 0 to |sorted|
      invariant Canonical(normalized)
      invariant forall m :: m in normalized <==> m in sorted[..i]
      invariant i == 0 <==> normalized == []
      invariant i > 0 ==> normalized[|normalized| - 1] == sorted[i - 1]
    {
      var mark := sorted[i];
      assert sorted[..i + 1] == sorted[..i] + [mark];
      if |normalized| > 0 && normalized[|normalized| - 1].Kind() == mark.Kind() {
        if normalized[|normalized| - 1] == mark {
          continue;
        }
        assert sorted[i - 1] in marks && mark in marks;
        return Err(InvalidMarkSet);
      }
      if |normalized| > 0 {
        NextIsLarger(sorted, i);
      }
      CanonicalAppend(normalized, mark);
      normalized := normalized + [mark];
    }
    assert sorted[..|sorted|] == sorted;
    forall i, j | 0 <= i < j < |marks| && marks[i].Kind() == marks[j].Kind()
      ensures marks[i] == marks[j]
    {
      assert marks[i] in marks && marks[j] in marks;
      OneOfAKind(normalized, marks[i], marks[j]);
    }
    return Ok(MarkSet(normalized));
  }

  lemma EmptyIsCanonical()
    ensures Canonical([])
  {}

  lemma NextIsLarger(sorted: seq<Mark>, i: nat)
    requires SortedByKind(sorted) && 0 < i < |sorted| && sorted[i - 1].Kind() != sorted[i].Kind()
    ensures Rank(sorted[i - 1].Kind()) < Rank(sorted[i].Kind())
  {
    RankIsInjective(sorted[i - 1].Kind(), sorted[i].Kind());
  }

  lemma CanonicalAppend(marks: seq<Mark>, mark: Mark)
    requires Canonical(marks) && (marks != [] ==> Rank(marks[|marks| - 1].Kind()) < Rank(mark.Kind()))
    ensures Canonical(marks + [mark])
  {
    hide Rank;
  }

  lemma OneOfAKind(marks: seq<Mark>, a: Mark, b: Mark)
    requires Canonical(marks) && a in marks && b in marks && a.Kind() == b.Kind()
    ensures a == b
  {
    hide Rank;
  }

  // The marks of other kinds.
  function Without(marks: seq<Mark>, kind: MarkKind): (r: seq<Mark>)
    ensures forall m :: m in r <==> m in marks && m.Kind() != kind
    ensures Canonical(marks) ==> Canonical(r)
  {
    if marks == [] then []
    else
      var rest := Without(marks[1..], kind);
      assert marks == [marks[0]] + marks[1..];
      if marks[0].Kind() == kind then rest
      else
        assert Canonical(marks) ==> forall j :: 0 <= j < |rest| ==>
          rest[j] in marks[1..] && Rank(marks[0].Kind()) < Rank(rest[j].Kind());
        [marks[0]] + rest
  }

  // The set with `mark` as the one mark of its kind.
  function With(base: MarkSet, mark: Mark): (r: MarkSet)
    ensures forall m :: m in r.marks <==> m == mark || (m in base.marks && m.Kind() != mark.Kind())
    ensures base.Valid() ==> r.Valid()
  {
    var others := Without(base.marks, mark.Kind());
    assert base.Valid() ==> Canonical(InsertByKind(others, mark)) by {
      if base.Valid() {
        InsertKeepsCanonical(others, mark);
      }
    }
    MarkSet(InsertByKind(others, mark))
  }

  function Strip(base: MarkSet, kind: MarkKind): (r: MarkSet)
    ensures forall m :: m in r.marks <==> m in base.marks && m.Kind() != kind
    ensures base.Valid() ==> r.Valid()
  {
    MarkSet(Without(base.marks, kind))
  }

  lemma OneMarkPerKind(base: MarkSet, a: Mark, b: Mark)
    requires base.Valid() && a in base.marks && b in base.marks && a.Kind() == b.Kind()
    ensures a == b
  {
    OneOfAKind(base.marks, a, b);
  }

  lemma WithUndoesStrip(base: MarkSet, mark: Mark)
    requires base.Valid() && mark in base.marks
    ensures With(Strip(base, mark.Kind()), mark) == base
  {
    var r := With(Strip(base, mark.Kind()), mark);
    forall m
      ensures m in r.marks <==> m in base.marks
    {
      if m in base.marks && m.Kind() == mark.Kind() {
        OneMarkPerKind(base, m, mark);
      }
    }
    MarkSetExtensional(r.marks, base.marks);
  }

  lemma StripUndoesWith(base: MarkSet, mark: Mark)
    requires base.Valid()
    ensures Strip(With(base, mark), mark.Kind()) == Strip(base, mark.Kind())
  {
    MarkSetExtensional(Strip(With(base, mark), mark.Kind()).marks, Strip(base, mark.Kind()).marks);
  }

  lemma StripAbsent(base: MarkSet, kind: MarkKind)
    requires base.Valid() && !ContainsKind(base.marks, kind)
    ensures Strip(base, kind) == base
  {
    MarkSetExtensional(Strip(base, kind).marks, base.marks);
  }
}
