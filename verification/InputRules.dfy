// Which marks typed text takes, said over the stored payloads
// (crates/xiaomu-core/src/document/input_marks.rs:66-138).
module InputRules {
  import opened Wrappers
  import opened Marks
  import opened Content
  import opened InlineEdit
  import opened Flat
  import opened Nodes
  import opened InputMarks

  // A placement's node is stored as an inline atom.
  predicate StoredAtom(store: Store, id: NodeId) {
    id in store && store[id].kind.InlineAtom? && store[id].content.AtomPayload?
  }

  // Text always decides; a hard break always; an extension atom when it has marks.
  predicate Contributes(store: Store, item: Item) {
    match item
    case TextItem(_) => true
    case AtomItem(id) =>
      StoredAtom(store, id) && (store[id].kind.atom == HardBreak || store[id].content.marks.marks != [])
  }

  function Offered(store: Store, item: Item): MarkSet
    requires Contributes(store, item)
  {
    match item
    case TextItem(c) => c.marks
    case AtomItem(id) => store[id].content.marks
  }

  ghost predicate AtomsStored(store: Store, atoms: seq<Placement>) {
    forall i :: 0 <= i < |atoms| ==>
      StoredAtom(store, atoms[i].atom) && store[atoms[i].atom].content.marks.Valid()
  }

  lemma ContributionOffered(store: Store, item: Item)
    ensures Contribution(store, item) == if Contributes(store, item) then Some(Offered(store, item)) else None
  {}

  lemma {:induction false} NearestLeftAt(store: Store, items: seq<Item>, k: nat)
    requires k < |items| && Contributes(store, items[k])
    requires forall j :: k < j < |items| ==> !Contributes(store, items[j])
    ensures NearestLeft(store, items) == Some(Offered(store, items[k]))
  {
    hide Contributes, Offered, Contribution;
    var n := |items| - 1;
    ContributionOffered(store, items[n]);
    if k < n {
      NearestLeftAt(store, items[..n], k);
    }
  }

  lemma {:induction false} NearestLeftNone(store: Store, items: seq<Item>)
    requires forall j :: 0 <= j < |items| ==> !Contributes(store, items[j])
    ensures NearestLeft(store, items) == None
  {
    hide Contributes, Offered, Contribution;
    if items != [] {
      ContributionOffered(store, items[|items| - 1]);
      NearestLeftNone(store, items[..|items| - 1]);
    }
  }

  lemma {:induction false} NearestRightAt(store: Store, items: seq<Item>, k: nat)
    requires k < |items| && Contributes(store, items[k])
    requires forall j :: 0 <= j < k ==> !Contributes(store, items[j])
    ensures NearestRight(store, items) == Some(Offered(store, items[k]))
  {
    hide Contributes, Offered, Contribution;
    ContributionOffered(store, items[0]);
    if k > 0 {
      NearestRightAt(store, items[1..], k - 1);
    }
  }

  lemma {:induction false} NearestRightNone(store: Store, items: seq<Item>)
    requires forall j :: 0 <= j < |items| ==> !Contributes(store, items[j])
    ensures NearestRight(store, items) == None
  {
    hide Contributes, Offered, Contribution;
    if items != [] {
      ContributionOffered(store, items[0]);
      NearestRightNone(store, items[1..]);
    }
  }

  lemma StoredAreKnown(store: Store, atoms: seq<Placement>)
    requires AtomsStored(store, atoms)
    ensures AtomsKnown(store, atoms)
  {}

  // At every gap: the last contributing item before it, else the first one
  // after it, else no marks.
  lemma {:induction false} TypedTextTakes(store: Store, c: InlineContent, p: Caret)
    requires WfContent(c) && ValidCaret(c, p) && AtomsStored(store, c.atoms)
    ensures Placed(Chars(c.runs), c.atoms) && CaretIndex(c.atoms, p) <= |FlatOf(c)|
    ensures var items, index := FlatOf(c), CaretIndex(c.atoms, p);
      && (forall k :: 0 <= k < index && Contributes(store, items[k])
                      && (forall j :: k < j < index ==> !Contributes(store, items[j])) ==>
            InheritedMarks(store, c, p) == Ok(Offered(store, items[k])))
      && (forall k :: index <= k < |items| && Contributes(store, items[k])
                      && (forall j :: 0 <= j < k ==> !Contributes(store, items[j])) ==>
            InheritedMarks(store, c, p) == Ok(Offered(store, items[k])))
      && ((forall j :: 0 <= j < |items| ==> !Contributes(store, items[j])) ==>
            InheritedMarks(store, c, p) == Ok(NO_MARKS))
  {
    hide WfContent, ValidCaret, CaretIndex, Flatten, Chars, InheritedMarks, Contributes, Offered, NearestLeft;
    hide NearestRight, AtomsKnown, AtomsStored;
    StoredAreKnown(store, c.atoms);
    InheritanceIsNearest(store, c, p);
    var items, index := FlatOf(c), CaretIndex(c.atoms, p);
    var left, right := items[..index], items[index..];
    forall k | 0 <= k < index && Contributes(store, items[k])
      && (forall j :: k < j < index ==> !Contributes(store, items[j]))
      ensures InheritedMarks(store, c, p) == Ok(Offered(store, items[k]))
    {
      NearestLeftAt(store, left, k);
    }
    forall k | index <= k < |items| && Contributes(store, items[k])
      && (forall j :: 0 <= j < k ==> !Contributes(store, items[j]))
      ensures InheritedMarks(store, c, p) == Ok(Offered(store, items[k]))
    {
      NearestLeftNone(store, left);
      assert right[k - index] == items[k];
      NearestRightAt(store, right, k - index);
    }
    if forall j :: 0 <= j < |items| ==> !Contributes(store, items[j]) {
      NearestLeftNone(store, left);
      NearestRightNone(store, right);
    }
  }

  // ----- when there is no answer

  lemma {:induction false} LeftFails(store: Store, atoms: seq<Placement>)
    ensures LeftContribution(store, atoms).Ok? <==>
      forall i :: 0 <= i < |atoms| ==> StoredAtom(store, atoms[i].atom)
    ensures LeftContribution(store, atoms) == Ok(None) ==>
      forall i :: 0 <= i < |atoms| ==> !Contributes(store, AtomItem(atoms[i].atom))
    ensures LeftContribution(store, atoms).Ok? && LeftContribution(store, atoms) != Ok(None) ==>
      exists i :: 0 <= i < |atoms| && Contributes(store, AtomItem(atoms[i].atom))
  {
    if atoms != [] {
      var n := |atoms| - 1;
      LeftFails(store, atoms[..n]);
      assert forall i :: 0 <= i < n ==> atoms[..n][i] == atoms[i];
    }
  }

  // Nothing before it decides and it cannot be read.
  predicate FirstUnread(store: Store, atoms: seq<Placement>, k: nat) {
    && k < |atoms| && !StoredAtom(store, atoms[k].atom)
    && forall j :: 0 <= j < k ==> !Contributes(store, AtomItem(atoms[j].atom))
  }

  lemma {:induction false} RightFails(store: Store, atoms: seq<Placement>)
    ensures RightContribution(store, atoms).Err? <==>
      exists k :: 0 <= k < |atoms| && FirstUnread(store, atoms, k)
  {
    if atoms != [] {
      var rest := atoms[1..];
      RightFails(store, rest);
      if RightContribution(store, atoms).Err? && StoredAtom(store, atoms[0].atom) {
        assert RightContribution(store, rest).Err? ==> !Contributes(store, AtomItem(atoms[0].atom));
        var k :| 0 <= k < |rest| && FirstUnread(store, rest, k);
        assert FirstUnread(store, atoms, k + 1);
      }
      if !StoredAtom(store, atoms[0].atom) {
        assert FirstUnread(store, atoms, 0);
      }
      if k :| 0 < k < |atoms| && FirstUnread(store, atoms, k) {
        assert FirstUnread(store, rest, k - 1);
        assert !Contributes(store, AtomItem(atoms[0].atom));
      }
    }
  }

  // A missing atom among those before the caret at its boundary.
  predicate UnreadBefore(store: Store, atoms: seq<Placement>, p: Caret) {
    exists i :: FirstAt(atoms, p.offset) <= i < CaretCut(atoms, p) && i < |atoms| && !StoredAtom(store, atoms[i].atom)
  }

  // At the start of the text, with nothing before the caret deciding, a missing
  // atom is reached on the right before one that decides.
  predicate UnreadAfter(store: Store, atoms: seq<Placement>, p: Caret) {
    && p.offset == 0 && CountAt(atoms, 0) <= |atoms|
    && (forall i :: 0 <= i < p.ordinal && i < |atoms| ==> !Contributes(store, AtomItem(atoms[i].atom)))
    && exists k :: p.ordinal <= k < CountAt(atoms, 0) && ReachedAt(store, atoms, p.ordinal, k)
  }

  predicate ReachedAt(store: Store, atoms: seq<Placement>, from: nat, k: nat) {
    && k < |atoms| && !StoredAtom(store, atoms[k].atom)
    && forall j :: from <= j < k ==> !Contributes(store, AtomItem(atoms[j].atom))
  }

  // Typing fails exactly outside the gaps or when a missing atom is reached.
  lemma {:induction false} TypedTextFails(store: Store, c: InlineContent, p: Caret)
    requires WfContent(c)
    ensures InheritedMarks(store, c, p).Err? <==>
      !ValidCaret(c, p) || UnreadBefore(store, c.atoms, p) || UnreadAfter(store, c.atoms, p)
  {
    hide Chars, WfContent, FirstAt, CountAt, Contributes, StoredAtom, LeftContribution, RightContribution, SeamLeft;
    hide SeamRight, UnreadBefore, UnreadAfter, RightMarks;
    if ValidCaret(c, p) {
      SeamLeftFails(store, c, p);
      if UnreadAfter(store, c.atoms, p) {
        AfterNeedsStart(store, c.atoms, p);
      }
      if p.offset == 0 && LeftContribution(store, SeamLeft(c.atoms, p)) == Ok(None) {
        SeamRightFails(store, c, p);
      }
    }
  }

  lemma AfterNeedsStart(store: Store, atoms: seq<Placement>, p: Caret)
    requires UnreadAfter(store, atoms, p)
    ensures p.offset == 0
    ensures forall i :: 0 <= i < p.ordinal && i < |atoms| ==> !Contributes(store, AtomItem(atoms[i].atom))
  {}

  lemma StartIsFirst(atoms: seq<Placement>)
    ensures FirstAt(atoms, 0) == 0
  {}

  lemma {:induction false} SeamLeftFails(store: Store, c: InlineContent, p: Caret)
    requires WfContent(c) && ValidCaret(c, p)
    ensures var left := LeftContribution(store, SeamLeft(c.atoms, p));
      && (left.Err? <==> UnreadBefore(store, c.atoms, p))
      && (p.offset == 0 && left.Ok? ==>
            (left == Ok(None) <==> forall i :: 0 <= i < p.ordinal && i < |c.atoms| ==>
              !Contributes(store, AtomItem(c.atoms[i].atom))))
  {
    hide Chars, CharsOk, CanonicalRuns, FirstAt, CountAt, Contributes, StoredAtom, LeftContribution;
    AtomBlocks(c.atoms, p.offset);
    var first, cut := FirstAt(c.atoms, p.offset), CaretCut(c.atoms, p);
    var left := SeamLeft(c.atoms, p);
    StartIsFirst(c.atoms);
    LeftFails(store, left);
    assert forall i :: first <= i < cut ==> c.atoms[i] == left[i - first];
    if i :| first <= i < cut && i < |c.atoms| && !StoredAtom(store, c.atoms[i].atom) {
      assert left[i - first] == c.atoms[i];
    }
    if i :| 0 <= i < |left| && !StoredAtom(store, left[i].atom) {
      assert c.atoms[first + i] == left[i];
    }
  }

  lemma {:induction false} ReachedInSlice(store: Store, atoms: seq<Placement>, cut: nat, end: nat)
    requires cut <= end <= |atoms|
    ensures (exists k :: 0 <= k < end - cut && FirstUnread(store, atoms[cut..end], k))
      <==> exists k :: cut <= k < end && ReachedAt(store, atoms, cut, k)
  {
    hide Contributes, StoredAtom;
    var slice := atoms[cut..end];
    if k :| 0 <= k < |slice| && FirstUnread(store, slice, k) {
      assert forall j :: cut <= j < cut + k ==> atoms[j] == slice[j - cut];
      assert ReachedAt(store, atoms, cut, cut + k);
    }
    if k :| cut <= k < end && ReachedAt(store, atoms, cut, k) {
      assert forall j :: 0 <= j < k - cut ==> slice[j] == atoms[cut + j];
      assert FirstUnread(store, slice, k - cut);
    }
  }

  lemma {:induction false} SeamRightFails(store: Store, c: InlineContent, p: Caret)
    requires WfContent(c) && ValidCaret(c, p) && p.offset == 0
    requires forall i :: 0 <= i < p.ordinal && i < |c.atoms| ==> !Contributes(store, AtomItem(c.atoms[i].atom))
    ensures RightMarks(store, c, p).Err? <==> UnreadAfter(store, c.atoms, p)
  {
    hide Chars, CharsOk, CanonicalRuns, FirstAt, CountAt, Contributes, StoredAtom, RightContribution, FirstUnread;
    hide ReachedAt, DistinctAtoms, AnchoredAtoms, Boundary;
    AtomBlocks(c.atoms, 0);
    StartIsFirst(c.atoms);
    var cut, end := CaretCut(c.atoms, p), CountAt(c.atoms, 0);
    var right := SeamRight(c.atoms, p);
    assert right == c.atoms[cut..end];
    RightFails(store, right);
    ReachedInSlice(store, c.atoms, cut, end);
  }
}
