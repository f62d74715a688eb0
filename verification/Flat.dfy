// Mixed inline content flattened to one sequence of items, and carets as
// indices into it (crates/xiaomu-core/src/selection/inline_point.rs).
module Flat {
  import opened Wrappers
  import opened Text
  import opened Marks
  import opened Content
  import opened InlineEdit

  datatype Item = TextItem(c: Char) | AtomItem(atom: NodeId)

  function Texts(cs: seq<Char>): (r: seq<Item>)
    ensures |r| == |cs|
  {
    seq(|cs|, i requires 0 <= i < |cs| => TextItem(cs[i]))
  }

  // Ordered placements within the text.
  predicate Placed(cs: seq<Char>, atoms: seq<Placement>) {
    SortedAtoms(atoms) && forall i :: 0 <= i < |atoms| ==> atoms[i].offset <= |cs|
  }

  function Flatten(cs: seq<Char>, atoms: seq<Placement>): seq<Item>
    requires Placed(cs, atoms)
    decreases |atoms|
  {
    if atoms == [] then Texts(cs)
    else
      var n := |atoms| - 1;
      var at := atoms[n].offset;
      Flatten(cs[..at], atoms[..n]) + [AtomItem(atoms[n].atom)] + Texts(cs[at..])
  }

  function Rebased(atoms: seq<Placement>, base: nat): (r: seq<Placement>)
    requires forall i :: 0 <= i < |atoms| ==> atoms[i].offset >= base
    ensures |r| == |atoms|
    ensures forall i :: 0 <= i < |r| ==> r[i] == Placement(atoms[i].atom, atoms[i].offset - base)
  {
    seq(|atoms|, i requires 0 <= i < |atoms| => Placement(atoms[i].atom, atoms[i].offset - base))
  }

  // `cut` placements lie at or before `at`, the others at or after it.
  predicate CutsAtoms(atoms: seq<Placement>, at: nat, cut: nat) {
    && cut <= |atoms|
    && (forall i :: 0 <= i < cut ==> atoms[i].offset <= at)
    && (forall i :: cut <= i < |atoms| ==> atoms[i].offset >= at)
  }

  lemma PlacedHalves(cs: seq<Char>, atoms: seq<Placement>, at: nat, cut: nat)
    requires Placed(cs, atoms) && at <= |cs| && CutsAtoms(atoms, at, cut)
    ensures Placed(cs[..at], atoms[..cut])
    ensures Placed(cs[at..], Rebased(atoms[cut..], at))
  {}

  lemma TextsSplit(cs: seq<Char>, at: nat)
    requires at <= |cs|
    ensures Texts(cs) == Texts(cs[..at]) + Texts(cs[at..])
  {}

  // Text after the last atom stays text.
  lemma {:induction false} FlattenTail(cs: seq<Char>, atoms: seq<Placement>, at: nat)
    requires Placed(cs, atoms) && at <= |cs|
    requires forall i :: 0 <= i < |atoms| ==> atoms[i].offset <= at
    ensures Placed(cs[..at], atoms)
    ensures Flatten(cs, atoms) == Flatten(cs[..at], atoms) + Texts(cs[at..])
  {
    hide Texts;
    if atoms == [] {
      TextsSplit(cs, at);
    } else {
      var p := atoms[|atoms| - 1].offset;
      assert cs[..at][..p] == cs[..p];
      TextsSplit(cs[p..], at - p);
      assert cs[p..][..at - p] == cs[..at][p..] && cs[p..][at - p..] == cs[at..];
    }
  }

  // Content cut at a gap is the concatenation of its two halves.
  lemma {:induction false} FlattenCut(cs: seq<Char>, atoms: seq<Placement>, at: nat, cut: nat)
    requires Placed(cs, atoms) && at <= |cs| && CutsAtoms(atoms, at, cut)
    ensures Placed(cs[..at], atoms[..cut]) && Placed(cs[at..], Rebased(atoms[cut..], at))
    ensures Flatten(cs, atoms) == Flatten(cs[..at], atoms[..cut]) + Flatten(cs[at..], Rebased(atoms[cut..], at))
    decreases |atoms|
  {
    hide Texts;
    PlacedHalves(cs, atoms, at, cut);
    if cut == |atoms| {
      assert atoms[..cut] == atoms;
      assert Rebased(atoms[cut..], at) == [];
      FlattenTail(cs, atoms, at);
    } else {
      FlattenCutStep(cs, atoms, at, cut);
    }
  }

  lemma {:induction false} FlattenCutStep(cs: seq<Char>, atoms: seq<Placement>, at: nat, cut: nat)
    requires Placed(cs, atoms) && at <= |cs| && CutsAtoms(atoms, at, cut) && cut < |atoms|
    ensures Placed(cs[..at], atoms[..cut]) && Placed(cs[at..], Rebased(atoms[cut..], at))
    ensures Flatten(cs, atoms) == Flatten(cs[..at], atoms[..cut]) + Flatten(cs[at..], Rebased(atoms[cut..], at))
    decreases |atoms|, 0
  {
    hide Texts, Flatten, Rebased;
    PlacedHalves(cs, atoms, at, cut);
    var n := |atoms| - 1;
    var p := atoms[n].offset;
    var tail := Rebased(atoms[cut..], at);
    var m := |tail| - 1;
    assert tail[m] == Placement(atoms[n].atom, p - at);
    assert tail[..m] == Rebased(atoms[..n][cut..], at);
    FlattenCut(cs[..p], atoms[..n], at, cut);
    FlattenLast(cs, atoms);
    FlattenLast(cs[at..], tail);
    assert cs[..p][..at] == cs[..at] && atoms[..n][..cut] == atoms[..cut];
    assert cs[at..][..p - at] == cs[..p][at..] && cs[at..][p - at..] == cs[p..];
    var a, b := Flatten(cs[..at], atoms[..cut]), Flatten(cs[..p][at..], tail[..m]);
    assert Flatten(cs[..p], atoms[..n]) == a + b;
    assert Flatten(cs, atoms) == a + b + [AtomItem(atoms[n].atom)] + Texts(cs[p..]);
    assert Flatten(cs[at..], tail) == b + [AtomItem(atoms[n].atom)] + Texts(cs[p..]);
  }

  lemma {:induction false} FlattenLast(cs: seq<Char>, atoms: seq<Placement>)
    requires Placed(cs, atoms) && atoms != []
    ensures var n := |atoms| - 1; var at := atoms[n].offset;
      && Placed(cs[..at], atoms[..n])
      && Flatten(cs, atoms) == Flatten(cs[..at], atoms[..n]) + [AtomItem(atoms[n].atom)] + Texts(cs[at..])
  {}

  lemma {:induction false} FlattenLength(cs: seq<Char>, atoms: seq<Placement>)
    requires Placed(cs, atoms)
    ensures |Flatten(cs, atoms)| == |cs| + |atoms|
    decreases |atoms|
  {
    if atoms != [] {
      FlattenLength(cs[..atoms[|atoms| - 1].offset], atoms[..|atoms| - 1]);
    }
  }

  // ----- flattening loses nothing

  function TextPart(items: seq<Item>): seq<Char> {
    if items == [] then []
    else
      var last := items[|items| - 1];
      TextPart(items[..|items| - 1]) + if last.TextItem? then [last.c] else []
  }

  function AtomPart(items: seq<Item>): seq<Placement> {
    if items == [] then []
    else
      var front := items[..|items| - 1];
      var last := items[|items| - 1];
      AtomPart(front) + if last.AtomItem? then [Placement(last.atom, |TextPart(front)|)] else []
  }

  lemma {:induction false} PartsOfText(items: seq<Item>, cs: seq<Char>)
    ensures TextPart(items + Texts(cs)) == TextPart(items) + cs
    ensures AtomPart(items + Texts(cs)) == AtomPart(items)
    decreases |cs|
  {
    if cs == [] {
      assert items + Texts(cs) == items;
    } else {
      var n := |cs| - 1;
      PartsOfText(items, cs[..n]);
      var all := items + Texts(cs);
      assert all[..|all| - 1] == items + Texts(cs[..n]);
      assert all[|all| - 1] == TextItem(cs[n]);
      assert cs == cs[..n] + [cs[n]];
    }
  }

  lemma {:induction false} PartsOfAtom(items: seq<Item>, atom: NodeId)
    ensures TextPart(items + [AtomItem(atom)]) == TextPart(items)
    ensures AtomPart(items + [AtomItem(atom)]) == AtomPart(items) + [Placement(atom, |TextPart(items)|)]
  {
    var all := items + [AtomItem(atom)];
    assert all[..|all| - 1] == items;
  }

  lemma {:induction false} PartsOfFlatten(cs: seq<Char>, atoms: seq<Placement>)
    requires Placed(cs, atoms)
    ensures TextPart(Flatten(cs, atoms)) == cs
    ensures AtomPart(Flatten(cs, atoms)) == atoms
    decreases |atoms|
  {
    hide Texts, TextPart, AtomPart;
    if atoms == [] {
      PartsOfText([], cs);
      NoParts();
      assert [] + Texts(cs) == Texts(cs);
    } else {
      var n := |atoms| - 1;
      var at := atoms[n].offset;
      PartsOfFlatten(cs[..at], atoms[..n]);
      PartsOfAtom(Flatten(cs[..at], atoms[..n]), atoms[n].atom);
      PartsOfText(Flatten(cs[..at], atoms[..n]) + [AtomItem(atoms[n].atom)], cs[at..]);
      assert cs == cs[..at] + cs[at..];
      assert atoms == atoms[..n] + [Placement(atoms[n].atom, at)];
    }
  }

  lemma NoParts()
    ensures TextPart([]) == [] && AtomPart([]) == []
  {}

  function FlatOf(c: InlineContent): seq<Item>
    requires Placed(Chars(c.runs), c.atoms)
  {
    Flatten(Chars(c.runs), c.atoms)
  }

  lemma WfIsPlaced(c: InlineContent)
    requires WfContent(c)
    ensures Placed(Chars(c.runs), c.atoms)
  {
    hide ValidUtf8;
  }

  // Two well-formed contents with the same items are the same content.
  lemma FlattenInjective(a: InlineContent, b: InlineContent)
    requires WfContent(a) && WfContent(b)
    requires Placed(Chars(a.runs), a.atoms) && Placed(Chars(b.runs), b.atoms)
    requires FlatOf(a) == FlatOf(b)
    ensures a == b
  {
    hide ValidUtf8, Chars, Flatten, TextPart, AtomPart;
    PartsOfFlatten(Chars(a.runs), a.atoms);
    PartsOfFlatten(Chars(b.runs), b.atoms);
    CanonicalRunsUnique(a.runs, b.runs);
  }

  // ----- carets

  datatype Caret = Caret(offset: nat, ordinal: nat)

  // `InlinePoint::validate` within one node.
  predicate ValidCaret(c: InlineContent, p: Caret) {
    Boundary(Chars(c.runs), p.offset) && p.ordinal <= CountAt(c.atoms, p.offset)
  }

  // Number of items before the caret.
  function CaretIndex(atoms: seq<Placement>, p: Caret): nat {
    p.offset + FirstAt(atoms, p.offset) + p.ordinal
  }

  function CaretCut(atoms: seq<Placement>, p: Caret): nat {
    FirstAt(atoms, p.offset) + p.ordinal
  }

  lemma CaretCuts(atoms: seq<Placement>, p: Caret)
    requires SortedAtoms(atoms) && p.ordinal <= CountAt(atoms, p.offset)
    ensures CutsAtoms(atoms, p.offset, CaretCut(atoms, p))
  {
    AtomBlocks(atoms, p.offset);
  }

  // A caret splits the items at its index.
  lemma CaretSplitsItems(cs: seq<Char>, atoms: seq<Placement>, p: Caret)
    requires Placed(cs, atoms) && p.offset <= |cs| && p.ordinal <= CountAt(atoms, p.offset)
    ensures var cut := CaretCut(atoms, p);
      && CutsAtoms(atoms, p.offset, cut)
      && Placed(cs[..p.offset], atoms[..cut]) && Placed(cs[p.offset..], Rebased(atoms[cut..], p.offset))
      && CaretIndex(atoms, p) <= |Flatten(cs, atoms)|
      && Flatten(cs[..p.offset], atoms[..cut]) == Flatten(cs, atoms)[..CaretIndex(atoms, p)]
      && Flatten(cs[p.offset..], Rebased(atoms[cut..], p.offset)) == Flatten(cs, atoms)[CaretIndex(atoms, p)..]
  {
    hide Flatten;
    CaretCuts(atoms, p);
    var cut := CaretCut(atoms, p);
    FlattenCut(cs, atoms, p.offset, cut);
    FlattenLength(cs[..p.offset], atoms[..cut]);
  }

  predicate CaretBefore(p: Caret, q: Caret) {
    p.offset < q.offset || (p.offset == q.offset && p.ordinal < q.ordinal)
  }

  // Caret order is index order, so indices identify carets.
  lemma CaretOrder(atoms: seq<Placement>, p: Caret, q: Caret)
    requires SortedAtoms(atoms)
    requires p.ordinal <= CountAt(atoms, p.offset) && q.ordinal <= CountAt(atoms, q.offset)
    ensures CaretBefore(p, q) <==> CaretIndex(atoms, p) < CaretIndex(atoms, q)
    ensures p == q <==> CaretIndex(atoms, p) == CaretIndex(atoms, q)
  {
    hide FirstAt, CountAt;
    AtomBlocks(atoms, p.offset);
    AtomBlocks(atoms, q.offset);
    FirstAtMonotone(atoms, p.offset, q.offset);
    FirstAtMonotone(atoms, q.offset, p.offset);
  }

  lemma FirstAtMonotone(atoms: seq<Placement>, x: nat, y: nat)
    requires SortedAtoms(atoms)
    ensures x < y ==> FirstAt(atoms, x) + CountAt(atoms, x) <= FirstAt(atoms, y)
  {
    if x < y {
      AtomBlocks(atoms, x);
      AtomBlocks(atoms, y);
    }
  }
}
