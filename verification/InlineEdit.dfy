// Piece-based editing of mixed inline content
// (crates/xiaomu-core/src/transaction/inline.rs and inline_atom.rs).
//
// Each loop over runs is proved against a one-line edit of the character
// sequence; each accepted edit keeps the content well formed.
module InlineEdit {
  import opened Wrappers
  import opened Numbers
  import opened Text
  import opened Marks
  import opened Content

  // Rust's `&text[i..j]`, which panics off a scalar boundary.
  function Slice(text: seq<byte>, i: nat, j: nat): (r: seq<byte>)
    requires i <= j && IsBoundary(text, i) && IsBoundary(text, j)
    ensures |r| == j - i
  {
    text[i..j]
  }

  // ----- specification on characters

  // Legacy inheritance: the character on the left, at the start the one on the right.
  function Inherited(cs: seq<Char>, start: nat): MarkSet {
    if start > |cs| || cs == [] then NO_MARKS
    else if start == 0 then cs[0].marks
    else cs[start - 1].marks
  }

  function SpliceChars(cs: seq<Char>, start: nat, end: nat, text: seq<byte>, marks: MarkSet): seq<Char>
    requires start <= end <= |cs|
  {
    cs[..start] + Marked(text, marks) + cs[end..]
  }

  // The two mark edits of apply.rs.
  datatype MarkChange = Add(mark: Mark) | Remove(kind: MarkKind)

  function Change(marks: MarkSet, change: MarkChange): (r: MarkSet)
    ensures marks.Valid() ==> r.Valid()
  {
    match change
    case Add(mark) => With(marks, mark)
    case Remove(kind) => Strip(marks, kind)
  }

  function ChangeChars(cs: seq<Char>, start: nat, end: nat, change: MarkChange): (r: seq<Char>)
    ensures |r| == |cs|
    ensures forall i :: 0 <= i < |cs| ==> r[i].b == cs[i].b
    ensures forall i :: 0 <= i < |cs| ==>
      r[i].marks == if start <= i < end then Change(cs[i].marks, change) else cs[i].marks
  {
    seq(|cs|, i requires 0 <= i < |cs| =>
      if start <= i < end then Char(cs[i].b, Change(cs[i].marks, change)) else cs[i])
  }

  function RangeCheck(cs: seq<Char>, start: nat, end: nat): Outcome {
    if start > end then Fail(InvalidTextRange)
    else if OffsetCheck(cs, start).Fail? then OffsetCheck(cs, start)
    else OffsetCheck(cs, end)
  }

  lemma RangeInText(cs: seq<Char>, start: nat, end: nat)
    requires RangeCheck(cs, start, end).Pass?
    ensures start <= end <= |cs| && Boundary(cs, start) && Boundary(cs, end)
  {}

  lemma BytesOfConcat(a: seq<Char>, b: seq<Char>)
    ensures Bytes(a + b) == Bytes(a) + Bytes(b)
  {}

  lemma {:induction false} SpliceKeepsBytes(cs: seq<Char>, start: nat, end: nat, text: seq<byte>, marks: MarkSet)
    requires CharsOk(cs) && RangeCheck(cs, start, end).Pass? && ValidUtf8(text)
    ensures ValidUtf8(Bytes(SpliceChars(cs, start, end, text, marks)))
  {
    hide ValidUtf8;
    CutValid(Bytes(cs), start);
    CutValid(Bytes(cs), end);
    var a, b := Bytes(cs)[..start], Bytes(cs)[end..];
    ConcatValid(a, text);
    ConcatValid(a + text, b);
    BytesOfConcat(cs[..start], Marked(text, marks));
    BytesOfConcat(cs[..start] + Marked(text, marks), cs[end..]);
    assert Bytes(cs[..start]) == a && Bytes(Marked(text, marks)) == text && Bytes(cs[end..]) == b;
  }

  lemma {:induction false} SpliceKeepsText(cs: seq<Char>, start: nat, end: nat, text: seq<byte>, marks: MarkSet)
    requires CharsOk(cs) && RangeCheck(cs, start, end).Pass? && ValidUtf8(text) && marks.Valid()
    ensures CharsOk(SpliceChars(cs, start, end, text, marks))
  {
    hide ValidUtf8;
    var next := SpliceChars(cs, start, end, text, marks);
    SpliceKeepsBytes(cs, start, end, text, marks);
    SpliceBoundaries(cs, start, end, text, marks);
    var d := start + |text|;
    assert Boundary(next, start) && Boundary(next, end - end + d);
    assert forall i :: start < i < d ==> next[i - 1].marks == next[i].marks;
    forall i | 0 < i < |next| && next[i - 1].marks != next[i].marks
      ensures !IsContinuation(next[i].b)
    {
      if i < start {
        assert next[i] == cs[i] && next[i - 1] == cs[i - 1];
      } else if i > d {
        assert next[i] == cs[i - d + end] && next[i - 1] == cs[i - d + end - 1];
      }
    }
  }

  lemma {:induction false} SpliceBoundaries(cs: seq<Char>, start: nat, end: nat, text: seq<byte>, marks: MarkSet)
    requires CharsOk(cs) && RangeCheck(cs, start, end).Pass? && ValidUtf8(text)
    ensures var next := SpliceChars(cs, start, end, text, marks);
      && (forall x :: 0 <= x <= start ==> (Boundary(next, x) <==> Boundary(cs, x)))
      && (forall x :: end <= x <= |cs| ==>
            (Boundary(next, x - end + start + |text|) <==> Boundary(cs, x)))
  {
    var next := SpliceChars(cs, start, end, text, marks);
    if text != [] {
      FirstIsLead(text);
      assert next[start].b == text[0];
    }
    forall x | 0 <= x <= start
      ensures Boundary(next, x) <==> Boundary(cs, x)
    {
      if x < start {
        assert next[x] == cs[x];
      } else if text == [] && end < |cs| {
        assert next[x] == cs[end];
      }
    }
    forall x | end <= x <= |cs|
      ensures Boundary(next, x - end + start + |text|) <==> Boundary(cs, x)
    {
      if x < |cs| {
        assert next[x - end + start + |text|] == cs[x];
        if x == 0 && |text| > 0 {
          FirstIsLead(Bytes(cs));
        }
      }
    }
  }

  lemma {:induction false} ChangeKeepsText(cs: seq<Char>, start: nat, end: nat, change: MarkChange)
    requires CharsOk(cs) && RangeCheck(cs, start, end).Pass?
    ensures CharsOk(ChangeChars(cs, start, end, change))
    ensures forall x :: Boundary(ChangeChars(cs, start, end, change), x) <==> Boundary(cs, x)
  {
    hide ValidUtf8, Change, ChangeChars;
    var next := ChangeChars(cs, start, end, change);
    assert Bytes(next) == Bytes(cs);
    forall i | 0 < i < |next| && next[i - 1].marks != next[i].marks
      ensures !IsContinuation(next[i].b)
    {
      if i != start && i != end {
        assert cs[i - 1].marks != cs[i].marks;
      }
    }
  }

  // ----- replace

  method CheckRange(runs: seq<TextRun>, start: nat, end: nat) returns (r: Outcome)
    requires CanonicalRuns(runs) && CharsOk(Chars(runs))
    ensures r == RangeCheck(Chars(runs), start, end)
  {
    if start > end {
      return Fail(InvalidTextRange);
    }
    r := ValidateOffset(runs, start);
    if r.Pass? {
      r := ValidateOffset(runs, end);
    }
  }

  lemma {:induction false} LeftRunMarks(runs: seq<TextRun>, k: nat, start: nat)
    requires CanonicalRuns(runs) && k < |runs|
    requires start <= |Chars(runs[..k + 1])|
    requires k > 0 ==> |Chars(runs[..k])| < start
    ensures Chars(runs) != [] && start <= |Chars(runs)| && Inherited(Chars(runs), start) == runs[k].marks
  {
    hide Chars, Marked;
    var cs := Chars(runs);
    CharsOfRun(runs, k);
    var lo, hi := |Chars(runs[..k])|, |Chars(runs[..k + 1])|;
    var x := if start == 0 then 0 else start - 1;
    if k == 0 {
      assert runs[..k] == [];
      NoRuns();
    }
    assert cs[x] == cs[lo..hi][x - lo];
    MarkedAt(runs[k].text, runs[k].marks, x - lo);
  }

  method PushPiece(pieces: seq<TextRun>, text: seq<byte>, marks: MarkSet) returns (r: seq<TextRun>)
    ensures r == pieces + [TextRun(text, marks)]
    ensures Chars(r) == Chars(pieces) + Marked(text, marks)
  {
    CharsPush(pieces, TextRun(text, marks));
    r := pieces + [TextRun(text, marks)];
  }

  // The text already emitted once the runs up to `offset` have been visited.
  ghost function Spliced(cs: seq<Char>, start: nat, end: nat, ins: seq<Char>, offset: nat, replaced: bool): seq<Char>
    requires start <= end <= |cs| && offset <= |cs|
  {
    if !replaced then cs[..offset]
    else cs[..start] + ins + (if offset > end then cs[end..offset] else [])
  }

  lemma SplicedEnds(cs: seq<Char>, start: nat, end: nat, text: seq<byte>, marks: MarkSet)
    requires start <= end <= |cs|
    ensures Spliced(cs, start, end, Marked(text, marks), 0, false) == []
    ensures Spliced(cs, start, end, Marked(text, marks), |cs|, true) == SpliceChars(cs, start, end, text, marks)
    ensures cs == [] ==> SpliceChars(cs, start, end, text, marks) == [] + Marked(text, marks)
    ensures cs == [] ==> Spliced(cs, start, end, Marked(text, marks), 0, false) == []
  {}

  // What of one run, starting at `from`, lies before `start` and past `end`.
  ghost function Before(here: seq<Char>, from: nat, start: nat): seq<Char> {
    if from < start then here[..Min(from + |here|, start) - from] else []
  }

  ghost function Past(here: seq<Char>, from: nat, end: nat): seq<Char> {
    if from + |here| > end then here[Max(end, from) - from..] else []
  }

  // What that run contributes to the spliced text.
  ghost function Share(here: seq<Char>, from: nat, start: nat, end: nat, ins: seq<Char>, begins: bool): seq<Char>
    requires start <= end
  {
    Before(here, from, start) + (if begins then ins else []) + Past(here, from, end)
  }

  lemma ShareWithoutInsertion(here: seq<Char>, from: nat, start: nat, end: nat, a: seq<Char>, b: seq<Char>)
    requires start <= end
    ensures Share(here, from, start, end, a, false) == Share(here, from, start, end, b, false)
  {}

  lemma SliceParts<T>(s: seq<T>, lo: nat, mid: nat, hi: nat)
    requires lo <= mid <= hi <= |s|
    ensures s[lo..hi][..mid - lo] == s[lo..mid] && s[lo..hi][mid - lo..] == s[mid..hi]
    ensures s[..lo] + s[lo..mid] == s[..mid] && s[lo..mid] + s[mid..hi] == s[lo..hi]
  {
    SliceOfSlice(s, lo, hi, 0, mid - lo);
    SliceOfSlice(s, lo, hi, mid - lo, hi - lo);
  }

  // A run before the range passes through.
  lemma {:induction false} SplicedBefore(cs: seq<Char>, start: nat, end: nat, ins: seq<Char>, from: nat, to: nat)
    requires from <= to < start <= end <= |cs|
    ensures Spliced(cs, start, end, ins, from, false) + Share(cs[from..to], from, start, end, ins, false)
      == Spliced(cs, start, end, ins, to, false)
  {
    SliceParts(cs, from, to, to);
  }

  // The run reaching the range gives its front, the replacement, and what is left.
  lemma {:induction false} SplicedHere(cs: seq<Char>, start: nat, end: nat, ins: seq<Char>, from: nat, to: nat)
    requires from <= start <= to <= |cs| && start <= end <= |cs|
    ensures Spliced(cs, start, end, ins, from, false) + Share(cs[from..to], from, start, end, ins, true)
      == Spliced(cs, start, end, ins, to, true)
  {
    var here, front, tail := cs[from..to], cs[from..start], if to > end then cs[end..to] else [];
    SliceParts(cs, from, start, to);
    if to > end {
      SliceParts(cs, from, end, to);
    }
    assert Share(here, from, start, end, ins, true) == front + ins + tail;
    Regroup(cs[..from], front, ins, tail);
    assert Spliced(cs, start, end, ins, to, true) == cs[..start] + ins + tail;
  }

  lemma Regroup<T>(a: seq<T>, b: seq<T>, c: seq<T>, d: seq<T>)
    ensures a + (b + c + d) == a + b + c + d
  {}

  // A later run gives what lies past the range.
  lemma {:induction false} SplicedAfter(cs: seq<Char>, start: nat, end: nat, ins: seq<Char>, from: nat, to: nat)
    requires start <= from <= to <= |cs| && start <= end <= |cs|
    ensures Spliced(cs, start, end, ins, from, true) + Share(cs[from..to], from, start, end, ins, false)
      == Spliced(cs, start, end, ins, to, true)
  {
    if from > end {
      SliceParts(cs, end, from, to);
      SliceParts(cs, from, from, to);
    } else if to > end {
      SliceParts(cs, from, end, to);
    }
  }

  lemma {:induction false} SplicedStep(cs: seq<Char>, start: nat, end: nat, ins: seq<Char>, from: nat,
                                       here: seq<Char>, replaced: bool)
    requires start <= end <= |cs| && from + |here| <= |cs|
    requires here == cs[from..from + |here|]
    requires replaced ==> start <= from
    requires !replaced ==> from == 0 || from < start
    ensures var offset := from + |here|; var begins := !replaced && start <= offset;
      Spliced(cs, start, end, ins, from, replaced) + Share(here, from, start, end, ins, begins)
        == Spliced(cs, start, end, ins, offset, replaced || begins)
  {
    hide Spliced, Share;
    var offset := from + |here|;
    if replaced {
      SplicedAfter(cs, start, end, ins, from, offset);
    } else if start <= offset {
      SplicedHere(cs, start, end, ins, from, offset);
    } else {
      SplicedBefore(cs, start, end, ins, from, offset);
    }
  }

  // The part of a run before the replaced range, if any.
  method PushBefore(pieces: seq<TextRun>, run: TextRun, from: nat, start: nat) returns (output: seq<TextRun>)
    requires IsBoundary(run.text, 0)
    requires from < start ==> IsBoundary(run.text, Min(from + |run.text|, start) - from)
    ensures Chars(output) == Chars(pieces) + Before(Marked(run.text, run.marks), from, start)
  {
    hide Marked, Chars, IsBoundary;
    MarkedLength(run.text, run.marks);
    output := pieces;
    if from < start {
      var cut := Min(from + |run.text|, start) - from;
      BoundaryInText(run.text, cut);
      MarkedSlice(run.text, run.marks, 0, cut);
      output := PushPiece(output, Slice(run.text, 0, cut), run.marks);
      FromStart(Marked(run.text, run.marks), cut);
    } else {
      AppendNothing(Chars(pieces));
    }
  }

  // The part of a run past the replaced range, if any.
  method PushPast(pieces: seq<TextRun>, run: TextRun, from: nat, end: nat) returns (output: seq<TextRun>)
    requires IsBoundary(run.text, |run.text|)
    requires end < from + |run.text| ==> IsBoundary(run.text, Max(end, from) - from)
    ensures Chars(output) == Chars(pieces) + Past(Marked(run.text, run.marks), from, end)
  {
    hide Marked, Chars, IsBoundary;
    MarkedLength(run.text, run.marks);
    output := pieces;
    if from + |run.text| > end {
      var cut := Max(end, from) - from;
      BoundaryInText(run.text, cut);
      MarkedSlice(run.text, run.marks, cut, |run.text|);
      output := PushPiece(output, Slice(run.text, cut, |run.text|), run.marks);
      ToEnd(Marked(run.text, run.marks), cut);
    } else {
      AppendNothing(Chars(pieces));
    }
  }

  lemma FromStart<T>(s: seq<T>, i: nat)
    requires i <= |s|
    ensures s[0..i] == s[..i]
  {}

  lemma ToEnd<T>(s: seq<T>, i: nat)
    requires i <= |s|
    ensures s[i..|s|] == s[i..]
  {}

  lemma AppendNothing<T>(s: seq<T>)
    ensures s + [] == s
  {}

  lemma BoundaryInText(text: seq<byte>, i: int)
    requires IsBoundary(text, i)
    ensures 0 <= i <= |text|
  {}

  lemma MarkedLength(text: seq<byte>, marks: MarkSet)
    ensures |Marked(text, marks)| == |text|
  {}

  // One run's share of the splice: its part before the range, the replacement
  // when the range begins here, and its part after the range.
  method SpliceRun(pieces: seq<TextRun>, run: TextRun, from: nat, start: nat, end: nat,
                   text: seq<byte>, inherited: MarkSet, begins: bool) returns (output: seq<TextRun>)
    requires IsBoundary(run.text, 0) && IsBoundary(run.text, |run.text|)
    requires from < start ==> IsBoundary(run.text, Min(from + |run.text|, start) - from)
    requires end < from + |run.text| ==> IsBoundary(run.text, Max(end, from) - from)
    requires start <= end
    ensures Chars(output) == Chars(pieces)
      + Share(Marked(run.text, run.marks), from, start, end, Marked(text, inherited), begins)
  {
    hide Marked, Chars, IsBoundary, Before, Past;
    output := PushBefore(pieces, run, from, start);
    ghost var here := Marked(run.text, run.marks);
    ghost var one := Chars(pieces) + Before(here, from, start);
    AppendNothing(one);
    if begins {
      output := PushPiece(output, text, inherited);
    }
    ghost var middle := if begins then Marked(text, inherited) else [];
    assert Chars(output) == one + middle;
    output := PushPast(output, run, from, end);
    Regroup(Chars(pieces), Before(here, from, start), middle, Past(here, from, end));
  }

  lemma SliceOfSlice<T>(s: seq<T>, lo: nat, hi: nat, i: nat, j: nat)
    requires lo <= hi <= |s| && i <= j <= hi - lo
    ensures s[lo..hi][i..j] == s[lo + i..lo + j]
  {
    var t := s[lo..hi];
    forall k | 0 <= k < j - i
      ensures t[i..j][k] == s[lo + i..lo + j][k]
    {
      assert t[i..j][k] == t[i + k] == s[lo + i + k];
    }
  }

  lemma MarkedSlice(text: seq<byte>, marks: MarkSet, i: nat, j: nat)
    requires i <= j <= |text|
    ensures Marked(text[i..j], marks) == Marked(text, marks)[i..j]
  {}

  lemma RunIsSlice(runs: seq<TextRun>, k: nat)
    requires k < |runs|
    ensures var lo := |Chars(runs[..k])|; var hi := |Chars(runs[..k + 1])|;
      && hi == lo + |runs[k].text| <= |Chars(runs)|
      && Marked(runs[k].text, runs[k].marks) == Chars(runs)[lo..hi]
  {
    CharsOfRun(runs, k);
  }

  method SplicePieces(runs: seq<TextRun>, start: nat, end: nat, text: seq<byte>, insertion: Option<MarkSet>)
      returns (output: seq<TextRun>)
    requires CanonicalRuns(runs) && CharsOk(Chars(runs))
    requires RangeCheck(Chars(runs), start, end).Pass?
    ensures Chars(output) == SpliceChars(Chars(runs), start, end, text,
                               if insertion.Some? then insertion.value else Inherited(Chars(runs), start))
  {
    hide Chars, Marked, CharsOk, CanonicalRuns, RangeCheck, Boundary, Slice, Share, Spliced, SpliceChars;
    ghost var cs := Chars(runs);
    RangeInText(cs, start, end);
    NoRuns();
    ghost var marks := if insertion.Some? then insertion.value else Inherited(cs, start);
    ghost var ins := Marked(text, marks);
    SplicedEnds(cs, start, end, text, marks);
    output := [];
    var offset := 0;
    var replaced := false;
    for i := 0 to |runs|
      invariant offset == |Chars(runs[..i])| <= |cs|
      invariant replaced <==> i > 0 && start <= offset
      invariant Chars(output) == Spliced(cs, start, end, ins, offset, replaced)
    {
      var run := runs[i];
      var begins := !replaced && start <= offset + |run.text|;
      var inherited := if insertion.Some? then insertion.value else run.marks;
      CutsWithinRun(runs, i, start, end);
      RunIsSlice(runs, i);
      if i == 0 {
        assert runs[..i] == [];
      }
      if begins {
        LeftRunMarks(runs, i, start);
        replaced := true;
      } else {
        ShareWithoutInsertion(Marked(run.text, run.marks), offset, start, end, ins, Marked(text, inherited));
      }
      SplicedStep(cs, start, end, ins, offset, Marked(run.text, run.marks), replaced && !begins);
      output := SpliceRun(output, run, offset, start, end, text, inherited, begins);
      offset := offset + |run.text|;
    }
    assert runs[..|runs|] == runs;
    if !replaced {
      // The range is valid, so only empty content has no run to begin in.
      CharsEmpty(runs);
      var inherited := if insertion.Some? then insertion.value else NO_MARKS;
      output := PushPiece(output, text, inherited);
    }
  }

  // Range endpoints cut a run between scalars.
  lemma {:induction false} CutsWithinRun(runs: seq<TextRun>, k: nat, start: nat, end: nat)
    requires CanonicalRuns(runs) && CharsOk(Chars(runs)) && k < |runs|
    requires RangeCheck(Chars(runs), start, end).Pass?
    ensures var lo := |Chars(runs[..k])|; var hi := lo + |runs[k].text|; var text := runs[k].text;
      && IsBoundary(text, 0) && IsBoundary(text, |text|)
      && (lo < start ==> IsBoundary(text, Min(hi, start) - lo))
      && (lo < end ==> IsBoundary(text, Min(hi, end) - lo))
      && (end < hi ==> IsBoundary(text, Max(end, lo) - lo))
      && (start < hi ==> IsBoundary(text, Max(start, lo) - lo))
  {
    hide CharsOk, CanonicalRuns, Boundary;
    var lo := |Chars(runs[..k])|;
    if lo <= start <= lo + |runs[k].text| {
      BoundaryWithinRun(runs, k, start);
    }
    if lo <= end <= lo + |runs[k].text| {
      BoundaryWithinRun(runs, k, end);
    }
  }

  // ----- splitting into pieces

  // No piece has `x` strictly inside.
  ghost predicate CutAt(pieces: seq<TextRun>, x: nat) {
    forall k :: 0 <= k < |pieces| ==>
      x <= |Chars(pieces[..k])| || |Chars(pieces[..k])| + |pieces[k].text| <= x
  }

  lemma CutPush(pieces: seq<TextRun>, piece: TextRun, x: nat)
    requires CutAt(pieces, x)
    requires x <= |Chars(pieces)| || |Chars(pieces)| + |piece.text| <= x
    ensures CutAt(pieces + [piece], x)
  {
    hide Chars;
    var next := pieces + [piece];
    forall k | 0 <= k < |next|
      ensures x <= |Chars(next[..k])| || |Chars(next[..k])| + |next[k].text| <= x
    {
      if k < |pieces| {
        assert next[..k] == pieces[..k];
      } else {
        assert next[..k] == pieces;
      }
    }
  }

  method PushCutPiece(pieces: seq<TextRun>, text: seq<byte>, marks: MarkSet, ghost x: nat, ghost y: nat)
      returns (r: seq<TextRun>)
    requires CutAt(pieces, x) && CutAt(pieces, y)
    requires x <= |Chars(pieces)| || |Chars(pieces)| + |text| <= x
    requires y <= |Chars(pieces)| || |Chars(pieces)| + |text| <= y
    ensures CutAt(r, x) && CutAt(r, y)
    ensures Chars(r) == Chars(pieces) + Marked(text, marks)
  {
    hide CutAt, Chars, Marked;
    CutPush(pieces, TextRun(text, marks), x);
    CutPush(pieces, TextRun(text, marks), y);
    CharsPush(pieces, TextRun(text, marks));
    r := pieces + [TextRun(text, marks)];
  }

  lemma MarkedGrow(text: seq<byte>, marks: MarkSet, i: nat, j: nat)
    requires i <= j <= |text|
    ensures Marked(text[..i], marks) + Marked(text[i..j], marks) == Marked(text[..j], marks)
  {}

  method SplitRun(pieces: seq<TextRun>, run: TextRun, from: nat, start: nat, end: nat) returns (output: seq<TextRun>)
    requires CutAt(pieces, start) && CutAt(pieces, end) && |Chars(pieces)| == from && start <= end
    requires IsBoundary(run.text, 0) && IsBoundary(run.text, |run.text|)
    requires from < start ==> IsBoundary(run.text, Min(from + |run.text|, start) - from)
    requires from < end ==> IsBoundary(run.text, Min(from + |run.text|, end) - from)
    requires end < from + |run.text| ==> IsBoundary(run.text, Max(end, from) - from)
    requires start < from + |run.text| ==> IsBoundary(run.text, Max(start, from) - from)
    ensures CutAt(output, start) && CutAt(output, end)
    ensures Chars(output) == Chars(pieces) + Marked(run.text, run.marks)
  {
    hide CutAt, Chars, Marked, IsBoundary;
    var until := from + |run.text|;
    ghost var a, b := Max(from, Min(until, start)) - from, Max(from, Min(until, end)) - from;
    MarkedNone(run.text, run.marks);
    AppendNothing(Chars(pieces));
    output := pieces;
    if from < start {
      output := PushCutPart(output, run, 0, Min(until, start) - from, start, end, Chars(pieces));
    }
    if until > start && from < end {
      output := PushCutPart(output, run, Max(start, from) - from, Min(end, until) - from, start, end, Chars(pieces));
    }
    var suffixStart := Max(end, from);
    if until > suffixStart {
      output := PushCutPart(output, run, suffixStart - from, |run.text|, start, end, Chars(pieces));
    }
    assert run.text[..|run.text|] == run.text;
  }

  // The next part of a run whose part up to `lo` is already pushed.
  method PushCutPart(pieces: seq<TextRun>, run: TextRun, lo: nat, hi: nat, ghost start: nat, ghost end: nat,
                     ghost front: seq<Char>) returns (output: seq<TextRun>)
    requires CutAt(pieces, start) && CutAt(pieces, end)
    requires lo <= hi && IsBoundary(run.text, lo) && IsBoundary(run.text, hi)
    requires lo <= |run.text| && Chars(pieces) == front + Marked(run.text[..lo], run.marks)
    requires start <= |Chars(pieces)| || |Chars(pieces)| + (hi - lo) <= start
    requires end <= |Chars(pieces)| || |Chars(pieces)| + (hi - lo) <= end
    ensures CutAt(output, start) && CutAt(output, end)
    ensures hi <= |run.text| && Chars(output) == front + Marked(run.text[..hi], run.marks)
  {
    hide CutAt, Chars, Marked;
    output := PushCutPiece(pieces, Slice(run.text, lo, hi), run.marks, start, end);
    MarkedGrow(run.text, run.marks, lo, hi);
    Regrouped(front, Marked(run.text[..lo], run.marks), Marked(run.text[lo..hi], run.marks));
  }

  lemma MarkedNone(text: seq<byte>, marks: MarkSet)
    ensures Marked([], marks) == [] && text[..0] == []
    ensures forall i :: 0 <= i <= |text| ==> text[i..i] == []
  {}

  method SplitPieces(runs: seq<TextRun>, start: nat, end: nat) returns (r: Result<seq<TextRun>>)
    requires CanonicalRuns(runs) && CharsOk(Chars(runs))
    ensures r.Err? <==> RangeCheck(Chars(runs), start, end).Fail?
    ensures r.Err? ==> RangeCheck(Chars(runs), start, end) == Fail(r.error)
    ensures r.Ok? ==> Chars(r.value) == Chars(runs) && CutAt(r.value, start) && CutAt(r.value, end)
  {
    hide Chars, Marked, CharsOk, CanonicalRuns, Boundary;
    var check := CheckRange(runs, start, end);
    if check.Fail? {
      return Err(check.error);
    }
    NoRuns();
    var pieces: seq<TextRun> := [];
    var cursor := 0;
    for i := 0 to |runs|
      invariant cursor == |Chars(runs[..i])|
      invariant Chars(pieces) == Chars(runs[..i])
      invariant CutAt(pieces, start) && CutAt(pieces, end)
    {
      CharsOfRun(runs, i);
      CutsWithinRun(runs, i, start, end);
      pieces := SplitRun(pieces, runs[i], cursor, start, end);
      cursor := cursor + |runs[i].text|;
    }
    assert runs[..|runs|] == runs;
    return Ok(pieces);
  }

  method Rebuild(pieces: seq<TextRun>, atoms: seq<Placement>) returns (r: Result<InlineContent>)
    requires CharsOk(Chars(pieces))
    requires SortedAtoms(atoms)
    ensures r.Ok? <==> AnchoredAtoms(Chars(pieces), atoms) && DistinctAtoms(atoms)
    ensures r.Ok? ==> r.value == InlineContent(Group(Chars(pieces)), atoms) && WfContent(r.value)
  {
    var runs: seq<TextRun> := [];
    for i := 0 to |pieces|
      invariant forall k :: 0 <= k < |runs| ==> runs[k].text != []
      invariant Chars(runs) == Chars(pieces[..i])
    {
      CharsOfRun(pieces, i);
      if pieces[i].text != [] {
        CharsPush(runs, pieces[i]);
        runs := runs + [pieces[i]];
      }
    }
    assert pieces[..|pieces|] == pieces;
    SortedIsFixed(atoms);
    r := WithAtoms(runs, atoms);
  }

  // ----- mark edits

  // Spec of `add_mark` and `remove_mark`.
  function MarksChanged(c: InlineContent, start: nat, end: nat, change: MarkChange): Result<InlineContent> {
    var cs := Chars(c.runs);
    :- RangeCheck(cs, start, end);
    Ok(InlineContent(Group(ChangeChars(cs, start, end, change)), c.atoms))
  }

  method ChangedSet(marks: MarkSet, change: MarkChange) returns (r: MarkSet)
    requires marks.Valid()
    ensures r == Change(marks, change)
  {
    match change {
      case Add(mark) =>
        var withoutKind := Without(marks.marks, mark.Kind());
        var wanted := withoutKind + [mark];
        forall i, j | 0 <= i < j < |wanted|
          ensures wanted[i].Kind() != wanted[j].Kind()
        {
          assert wanted[i] in withoutKind;
        }
        var made := NewMarkSet(wanted);
        r := made.value;
        MarkSetExtensional(r.marks, With(marks, mark).marks);
      case Remove(kind) =>
        var remaining := Without(marks.marks, kind);
        var made := NewMarkSet(remaining);
        r := made.value;
        MarkSetExtensional(r.marks, remaining);
    }
  }

  lemma CutFact(pieces: seq<TextRun>, k: nat, x: nat)
    requires CutAt(pieces, x) && k < |pieces|
    ensures x <= |Chars(pieces[..k])| || |Chars(pieces[..k])| + |pieces[k].text| <= x
  {}

  lemma MarkedAt(text: seq<byte>, marks: MarkSet, x: nat)
    requires x < |text|
    ensures Marked(text, marks)[x] == Char(text[x], marks)
  {}

  // A piece cut at both ends of the range is inside it or outside it.
  lemma {:induction false} PieceChanges(pieces: seq<TextRun>, k: nat, start: nat, end: nat, change: MarkChange)
    requires k < |pieces| && CutAt(pieces, start) && CutAt(pieces, end)
    ensures var lo := |Chars(pieces[..k])|; var hi := lo + |pieces[k].text|;
      var inside := lo >= start && hi <= end && pieces[k].text != [];
      && hi <= |Chars(pieces)|
      && Marked(pieces[k].text, if inside then Change(pieces[k].marks, change) else pieces[k].marks)
         == ChangeChars(Chars(pieces), start, end, change)[lo..hi]
  {
    hide Change, ChangeChars, Chars, CutAt, Marked;
    RunIsSlice(pieces, k);
    var cs := Chars(pieces);
    var lo := |Chars(pieces[..k])|;
    var hi := lo + |pieces[k].text|;
    var text, marks := pieces[k].text, pieces[k].marks;
    CutFact(pieces, k, start);
    CutFact(pieces, k, end);
    var inside := lo >= start && hi <= end && text != [];
    var next := ChangeChars(cs, start, end, change);
    var after := Marked(text, if inside then Change(marks, change) else marks);
    forall x | 0 <= x < |text|
      ensures after[x] == next[lo..hi][x]
    {
      MarkedAt(text, marks, x);
      MarkedAt(text, if inside then Change(marks, change) else marks, x);
      assert cs[lo..hi][x] == cs[lo + x];
      assert next[lo..hi][x] == next[lo + x];
    }
  }

  lemma PieceMarksValid(pieces: seq<TextRun>, k: nat)
    requires k < |pieces| && MarksOk(Chars(pieces)) && pieces[k].text != []
    ensures pieces[k].marks.Valid()
  {
    RunIsSlice(pieces, k);
    var lo := |Chars(pieces[..k])|;
    assert Chars(pieces)[lo] == Marked(pieces[k].text, pieces[k].marks)[0];
  }

  method ChangeMarks(c: InlineContent, start: nat, end: nat, change: MarkChange) returns (r: Result<InlineContent>)
    requires WfContent(c)
    ensures r == MarksChanged(c, start, end, change)
    ensures r.Ok? ==> WfContent(r.value)
  {
    hide Chars, Marked, Change, ChangeChars, CutAt, ValidUtf8, Boundary, CanonicalRuns, Group;
    ghost var cs := Chars(c.runs);
    var split := SplitPieces(c.runs, start, end);
    if split.Err? {
      return Err(split.error);
    }
    var pieces := split.value;
    ghost var original := pieces;
    NoRuns();
    var offset := 0;
    for k := 0 to |pieces|
      invariant |pieces| == |original| && pieces[k..] == original[k..]
      invariant offset == |Chars(original[..k])| <= |cs|
      invariant Chars(pieces[..k]) == ChangeChars(cs, start, end, change)[..offset]
    {
      var piece := pieces[k];
      assert piece == original[k];
      var from := offset;
      offset := from + |piece.text|;
      PieceChanges(original, k, start, end, change);
      RunIsSlice(original, k);
      var inside := from >= start && offset <= end && piece.text != [];
      var marks := piece.marks;
      if inside {
        PieceMarksValid(original, k);
        marks := ChangedSet(piece.marks, change);
      }
      ghost var before := pieces[..k];
      pieces := pieces[k := TextRun(piece.text, marks)];
      assert pieces[..k + 1] == before + [TextRun(piece.text, marks)];
      CharsPush(before, TextRun(piece.text, marks));
      ghost var next := ChangeChars(cs, start, end, change);
      assert next[..from] + next[from..offset] == next[..offset];
    }
    assert pieces[..|pieces|] == pieces && original[..|pieces|] == original;
    assert ChangeChars(cs, start, end, change)[..|cs|] == ChangeChars(cs, start, end, change);
    ChangeKeepsText(cs, start, end, change);
    r := Rebuild(pieces, c.atoms);
  }

  // ----- atom placements across a replacement

  function MovedAtom(p: Placement, stays: bool, start: nat, end: nat, len: nat): Placement
    requires stays || p.offset >= end >= start
  {
    if stays then p else Placement(p.atom, p.offset - (end - start) + len)
  }

  // No placement from `cut` on is anchored before `end`.
  predicate ClearFrom(atoms: seq<Placement>, cut: nat, end: nat) {
    forall i :: cut <= i < |atoms| ==> atoms[i].offset >= end
  }

  // Placements from `cut` on move with the end of the replaced range.
  function MovedAtoms(atoms: seq<Placement>, cut: nat, start: nat, end: nat, len: nat): (r: seq<Placement>)
    requires start <= end
    requires ClearFrom(atoms, cut, end)
    ensures |r| == |atoms|
    ensures forall i :: 0 <= i < |r| ==> r[i] == MovedAtom(atoms[i], i < cut, start, end, len)
  {
    seq(|atoms|, i requires 0 <= i < |atoms| => MovedAtom(atoms[i], i < cut, start, end, len))
  }

  lemma {:induction false} MovedAtomsOk(c: InlineContent, cut: nat, start: nat, end: nat, text: seq<byte>,
                                        marks: MarkSet)
    requires WfContent(c) && RangeCheck(Chars(c.runs), start, end).Pass? && ValidUtf8(text) && marks.Valid()
    requires cut <= |c.atoms|
    requires forall i :: 0 <= i < cut ==> c.atoms[i].offset <= start
    requires ClearFrom(c.atoms, cut, end)
    ensures var next := SpliceChars(Chars(c.runs), start, end, text, marks);
      var moved := MovedAtoms(c.atoms, cut, start, end, |text|);
      && CharsOk(next) && SortedAtoms(moved) && DistinctAtoms(moved) && AnchoredAtoms(next, moved)
      && WfContent(InlineContent(Group(next), moved))
  {
    hide Chars, ValidUtf8, CharsOk, SpliceChars, Boundary, MovedAtoms;
    var cs := Chars(c.runs);
    var next := SpliceChars(cs, start, end, text, marks);
    var moved := MovedAtoms(c.atoms, cut, start, end, |text|);
    RangeInText(cs, start, end);
    SpliceKeepsText(cs, start, end, text, marks);
    SpliceBoundaries(cs, start, end, text, marks);
    forall i | 0 <= i < |moved|
      ensures Boundary(next, moved[i].offset)
    {
      var p := c.atoms[i];
      assert Boundary(cs, p.offset);
      OffsetInText(cs, p.offset);
      assert i >= cut ==> Boundary(next, p.offset - end + start + |text|);
    }
  }

  lemma OffsetInText(cs: seq<Char>, offset: nat)
    requires Boundary(cs, offset)
    ensures offset <= |cs|
  {}

  // Spec of the text-only `replace_text`: no atom may touch the closed range.
  function TextReplaced(c: InlineContent, start: nat, end: nat, text: seq<byte>): Result<InlineContent> {
    var cs := Chars(c.runs);
    :- RangeCheck(cs, start, end);
    :- Need(forall i :: 0 <= i < |c.atoms| ==> !(start <= c.atoms[i].offset <= end), InvalidTransaction);
    var cut := FirstAt(c.atoms, start);
    // On ordered placements this holds already.
    :- Need(ClearFrom(c.atoms, cut, end), InvalidTransaction);
    Ok(InlineContent(Group(SpliceChars(cs, start, end, text, Inherited(cs, start))),
                     MovedAtoms(c.atoms, cut, start, end, |text|)))
  }

  // Spec of `replace_inline_text` at the gap before atom `ordinal` of offset `start`.
  function InlineTextReplaced(c: InlineContent, start: nat, ordinal: nat, end: nat, text: seq<byte>, marks: MarkSet)
      : Result<InlineContent> {
    var cs := Chars(c.runs);
    :- RangeCheck(cs, start, end);
    :- Need(ordinal <= CountAt(c.atoms, start), InvalidSelection);
    var cut := FirstAt(c.atoms, start) + ordinal;
    :- Need(ClearFrom(c.atoms, cut, end), InvalidTransaction);
    Ok(InlineContent(Group(SpliceChars(cs, start, end, text, marks)),
                     MovedAtoms(c.atoms, cut, start, end, |text|)))
  }

  // From sorted order: placements before, at and after `offset` are three blocks.
  lemma {:induction false} AtomBlocks(atoms: seq<Placement>, offset: nat)
    requires SortedAtoms(atoms)
    ensures var first := FirstAt(atoms, offset); var count := CountAt(atoms, offset);
      && first + count <= |atoms|
      && (forall i :: 0 <= i < first ==> atoms[i].offset < offset)
      && (forall i :: first <= i < first + count ==> atoms[i].offset == offset)
      && (forall i :: first + count <= i < |atoms| ==> atoms[i].offset > offset)
  {
    CountIsGap(atoms, offset);
  }

  lemma InheritedValid(cs: seq<Char>, start: nat)
    requires CharsOk(cs) && start <= |cs|
    ensures Inherited(cs, start).Valid()
  {
    hide ValidUtf8;
  }

  method ReplaceText(c: InlineContent, start: nat, end: nat, text: seq<byte>) returns (r: Result<InlineContent>)
    requires WfContent(c) && ValidUtf8(text)
    ensures r == TextReplaced(c, start, end, text)
    ensures r.Ok? ==> WfContent(r.value)
  {
    hide Chars, ValidUtf8, CharsOk, SpliceChars, Boundary, RangeCheck, Group, CanonicalRuns, AnchoredAtoms;
    hide DistinctAtoms, Inherited;
    hide FirstAt, CountAt;
    var check := CheckRange(c.runs, start, end);
    if check.Fail? {
      return Err(check.error);
    }
    ghost var cs := Chars(c.runs);
    RangeInText(cs, start, end);
    AtomBlocks(c.atoms, start);
    ghost var cut := FirstAt(c.atoms, start);
    var atoms: seq<Placement> := [];
    for i := 0 to |c.atoms|
      invariant forall j :: 0 <= j < i ==> !(start <= c.atoms[j].offset <= end)
      invariant |atoms| == i
      invariant forall j :: 0 <= j < i ==>
        atoms[j] == MovedAtom(c.atoms[j], c.atoms[j].offset <= end, start, end, |text|)
    {
      var placement := c.atoms[i];
      if start <= placement.offset <= end {
        return Err(InvalidTransaction);
      }
      atoms := atoms + [if placement.offset > end
                        then Placement(placement.atom, placement.offset - (end - start) + |text|)
                        else placement];
    }
    assert ClearFrom(c.atoms, cut, end);
    assert atoms == MovedAtoms(c.atoms, cut, start, end, |text|);
    InheritedValid(cs, start);
    MovedAtomsOk(c, cut, start, end, text, Inherited(cs, start));
    var pieces := SplicePieces(c.runs, start, end, text, None);
    r := Rebuild(pieces, atoms);
  }

  // The placement loop of inline_atom.rs: walks the placements counting
  // same-boundary ordinals, and fails on an atom inside the replaced region.
  method MapPlacements(atoms: seq<Placement>, start: nat, seam: nat, end: nat, len: nat)
      returns (r: Result<seq<Placement>>)
    requires SortedAtoms(atoms) && start <= end && seam <= CountAt(atoms, start)
    ensures var cut := FirstAt(atoms, start) + seam;
      if ClearFrom(atoms, cut, end)
      then r == Ok(MovedAtoms(atoms, cut, start, end, len))
      else r == Err(InvalidTransaction)
  {
    hide FirstAt, CountAt;
    AtomBlocks(atoms, start);
    ghost var first := FirstAt(atoms, start);
    ghost var cut := first + seam;
    var mapped: seq<Placement> := [];
    var previousOffset: Option<nat> := None;
    var ordinal := 0;
    for i := 0 to |atoms|
      invariant |mapped| == i
      invariant previousOffset == if i == 0 then None else Some(atoms[i - 1].offset)
      invariant i > 0 && atoms[i - 1].offset == start ==> ordinal == i - 1 - first
      invariant forall j :: cut <= j < i ==> atoms[j].offset >= end
      invariant forall j :: 0 <= j < i ==> mapped[j] == MovedAtom(atoms[j], j < cut, start, end, len)
    {
      var placement := atoms[i];
      var offset := placement.offset;
      if previousOffset == Some(offset) {
        ordinal := ordinal + 1;
      } else {
        ordinal := 0;
        previousOffset := Some(offset);
      }
      assert offset == start ==> ordinal == i - first by {
        if i > 0 && atoms[i - 1].offset < start {
          assert i == first || atoms[i].offset < start;
        }
      }
      assert offset < start || (offset == start && ordinal < seam) <==> i < cut;
      var anchor;
      if offset < start || (offset == start && ordinal < seam) {
        anchor := offset;
      } else if offset == start {
        if end > start {
          return Err(InvalidTransaction);
        }
        anchor := start + len;
      } else if offset < end {
        return Err(InvalidTransaction);
      } else {
        anchor := offset - (end - start) + len;
      }
      mapped := mapped + [Placement(placement.atom, anchor)];
    }
    assert mapped == MovedAtoms(atoms, cut, start, end, len);
    return Ok(mapped);
  }

  method ReplaceInlineText(c: InlineContent, start: nat, ordinal: nat, end: nat, text: seq<byte>, marks: MarkSet)
      returns (r: Result<InlineContent>)
    requires WfContent(c) && ValidUtf8(text) && marks.Valid()
    ensures r == InlineTextReplaced(c, start, ordinal, end, text, marks)
    ensures r.Ok? ==> WfContent(r.value)
  {
    hide Chars, ValidUtf8, CharsOk, SpliceChars, Boundary, RangeCheck, Group, CanonicalRuns, AnchoredAtoms;
    hide DistinctAtoms;
    hide ClearFrom, MovedAtoms, FirstAt, CountAt;
    var check := CheckRange(c.runs, start, end);
    if check.Fail? {
      return Err(check.error);
    }
    var count := AtomCountAt(c.atoms, start);
    if ordinal > count {
      return Err(InvalidSelection);
    }
    ghost var cs := Chars(c.runs);
    RangeInText(cs, start, end);
    AtomBlocks(c.atoms, start);
    var atoms := MapPlacements(c.atoms, start, ordinal, end, |text|);
    if atoms.Err? {
      return Err(atoms.error);
    }
    MovedAtomsOk(c, FirstAt(c.atoms, start) + ordinal, start, end, text, marks);
    var pieces := SplicePieces(c.runs, start, end, text, Some(marks));
    r := Rebuild(pieces, atoms.value);
  }
}
